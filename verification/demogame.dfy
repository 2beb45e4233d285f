/** The demo game (src/demogame/state.go): one signed counter. Inputs and
    deltas are both a signed difference written as a zigzag varint; the
    server adds raw inputs to its counter, the clients add the delta the
    server generated from the same inputs. */
module DemoGame {
  import opened Common
  import opened Varint

  datatype State = State(counter: int)

  datatype Delta = Delta(diff: int)

  /** `PutVarint` into `make([]byte, 8)`, keeping the bytes written. An
      encoding longer than 8 bytes panics (index out of range). */
  function MarshalVarint8(x: int): (r: Result<bytes, CodecError>)
    ensures r.Success? <==> -TWO_55 <= x < TWO_55
    ensures r.Success? ==> 1 <= |r.value| <= 8 && r.value == PutVarint(x)
    ensures r.Failure? ==> r.error == BufferOverrun
  {
    var e := PutVarint(x);
    if |e| <= 8 then Success(e) else Failure(BufferOverrun)
  }

  /** A value in range reads back from its marshalled bytes, whatever follows them. */
  lemma MarshalVarint8RoundTrip(x: int, rest: bytes)
    requires -TWO_55 <= x < TWO_55
    ensures MarshalVarint8(x).Success?
    ensures VarintValue(MarshalVarint8(x).value + rest) == x
  {
    VarintRoundTrip(x, rest);
  }

  // ---------------------------------------------------------------- state

  function MarshalState(s: State): (r: Result<bytes, CodecError>)
    ensures r.Success? <==> -TWO_55 <= s.counter < TWO_55
    ensures r.Success? ==> 1 <= |r.value| <= 8
  {
    MarshalVarint8(s.counter)
  }

  /** Never fails: the varint's error is discarded, so empty or malformed
      input gives a zero counter, and bytes after the varint are ignored. */
  function UnmarshalState(msg: bytes): (s: State)
    ensures Uvarint(msg).n <= 0 ==> s.counter == 0
    ensures msg == [] ==> s.counter == 0
  {
    State(VarintValue(msg))
  }

  lemma StateRoundTrip(s: State, rest: bytes)
    requires -TWO_55 <= s.counter < TWO_55
    ensures MarshalState(s).Success?
    ensures UnmarshalState(MarshalState(s).value + rest) == s
  {
    MarshalVarint8RoundTrip(s.counter, rest);
  }

  // ---------------------------------------------------------------- delta

  function MarshalDelta(d: Delta): (r: Result<bytes, CodecError>)
    ensures r.Success? <==> -TWO_55 <= d.diff < TWO_55
    ensures r.Success? ==> 1 <= |r.value| <= 8
  {
    MarshalVarint8(d.diff)
  }

  /** Never fails, like `UnmarshalState`. Inputs are decoded the same way. */
  function UnmarshalDelta(msg: bytes): (d: Delta)
    ensures Uvarint(msg).n <= 0 ==> d.diff == 0
    ensures msg == [] ==> d.diff == 0
  {
    Delta(VarintValue(msg))
  }

  lemma DeltaRoundTrip(d: Delta, rest: bytes)
    requires -TWO_55 <= d.diff < TWO_55
    ensures MarshalDelta(d).Success?
    ensures UnmarshalDelta(MarshalDelta(d).value + rest) == d
  {
    MarshalVarint8RoundTrip(d.diff, rest);
  }

  // ---------------------------------------------------------------- updates

  /** Reference definition: the sum of the differences a batch of raw inputs encodes. */
  function SumDiffs(inputs: seq<bytes>): int
  {
    if inputs == [] then 0 else UnmarshalDelta(inputs[0]).diff + SumDiffs(inputs[1..])
  }

  lemma {:induction false} SumDiffsConcat(a: seq<bytes>, b: seq<bytes>)
    ensures SumDiffs(a + b) == SumDiffs(a) + SumDiffs(b)
  {
    if a == [] {
      assert a + b == b;
    } else {
      assert (a + b)[1..] == a[1..] + b;
      SumDiffsConcat(a[1..], b);
    }
  }

  /** The loop `UpdateOnInput` and `GenerateDelta` share: decode each input in
      order and add its difference to a running total. */
  function Accumulate(acc: int, inputs: seq<bytes>): (r: int)
    ensures r == acc + SumDiffs(inputs)
    decreases |inputs|
  {
    if inputs == [] then acc
    else Accumulate(acc + UnmarshalDelta(inputs[0]).diff, inputs[1..])
  }

  /** Applies a batch of raw inputs: the counter moves by their total difference. Never fails. */
  function UpdateOnInput(s: State, inputs: seq<bytes>): (s': State)
    ensures s'.counter == s.counter + SumDiffs(inputs)
  {
    State(Accumulate(s.counter, inputs))
  }

  /** Summarises a batch of inputs as one delta. The frame number plays no
      part and the state is left as it was. Never fails. */
  function GenerateDelta(frame: uint64, inputs: seq<bytes>): (d: Delta)
    ensures d.diff == SumDiffs(inputs)
  {
    Delta(Accumulate(0, inputs))
  }

  /** Applies a marshalled delta. Never fails. */
  function UpdateOnDelta(s: State, delta: bytes): (s': State)
    ensures s'.counter - s.counter == UnmarshalDelta(delta).diff
  {
    State(s.counter + UnmarshalDelta(delta).diff)
  }

  /** A client applying the marshalled form of an in-range delta, whatever
      bytes follow it, moves its counter by exactly that delta. */
  lemma UpdateOnDeltaMarshalled(s: State, d: Delta, padding: bytes)
    requires -TWO_55 <= d.diff < TWO_55
    ensures MarshalDelta(d).Success?
    ensures UpdateOnDelta(s, MarshalDelta(d).value + padding) == State(s.counter + d.diff)
  {
    DeltaRoundTrip(d, padding);
  }

  /** Lockstep consistency: from the same state, applying the raw inputs (the
      server) and applying the marshalled delta generated from them (a
      client), even with bytes appended to the delta, end in the same state. */
  lemma LockstepConsistency(s: State, frame: uint64, inputs: seq<bytes>, padding: bytes)
    requires -TWO_55 <= SumDiffs(inputs) < TWO_55
    ensures MarshalDelta(GenerateDelta(frame, inputs)).Success?
    ensures UpdateOnDelta(s, MarshalDelta(GenerateDelta(frame, inputs)).value + padding)
         == UpdateOnInput(s, inputs)
  {
    DeltaRoundTrip(GenerateDelta(frame, inputs), padding);
  }
}
