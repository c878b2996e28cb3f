/** The streaming inflater that unpackEntryData drives (the gitzlib binding of
    zlib). Its algorithm is not modelled: an inflater is any function from the
    stream so far, the input window and the output capacity to the outcome of
    one Inflate call, as long as it keeps the contract zlib documents for a
    single call. */
module ZStream {
  import opened PackFormat

  /** zlib's status codes for a successful call. */
  const ZOk: int := 0
  const ZStreamEnd: int := 1

  /** What the caller can observe of a stream: the input bytes it has taken so
      far, TotalOut, and the status of the last call. */
  datatype Stream = Stream(consumed: seq<byte>, totalOut: nat, status: int)

  /** The stream after InflateInit. */
  const Fresh: Stream := Stream([], 0, ZOk)

  /** One Inflate call: its status, the input it left unread (AvailIn) and
      TotalOut afterwards; or the error it returned. */
  datatype Step = Step(status: int, availIn: nat, totalOut: nat) | Failed(code: int)

  type Inflater = (Stream, seq<byte>, nat) -> Step

  /** The contract of one call on window `input` with an output buffer of
      `capacity` bytes: it reads a prefix of the window, never takes back
      output, never writes past the buffer, and reports Z_OK only when it made
      progress (otherwise zlib reports Z_BUF_ERROR). */
  ghost predicate StepConforms(z: Stream, input: seq<byte>, capacity: nat, step: Step)
  {
    step.Step? ==>
      step.availIn <= |input| &&
      z.totalOut <= step.totalOut &&
      (z.totalOut <= capacity ==> step.totalOut <= capacity) &&
      (step.status == ZOk ==> step.availIn < |input| || z.totalOut < step.totalOut)
  }

  ghost predicate Conforming(inflate: Inflater)
  {
    forall z, input, capacity :: StepConforms(z, input, capacity, inflate(z, input, capacity))
  }

  /** The stream after a successful call: it has taken the first
      `|input| - availIn` bytes of the window. */
  function Advance(z: Stream, input: seq<byte>, step: Step): (r: Stream)
    requires step.Step? && step.availIn <= |input|
    ensures |r.consumed| == |z.consumed| + |input| - step.availIn
    ensures r.consumed[..|z.consumed|] == z.consumed
  {
    Stream(z.consumed + input[..|input| - step.availIn], step.totalOut, step.status)
  }

  /** One Inflate call: the stream before it, the input window it was given
      (SetInBuf) and what it returned. */
  datatype Call = Call(stream: Stream, window: seq<byte>, step: Step)

  function Last<T>(s: seq<T>): T
    requires s != []
  {
    s[|s| - 1]
  }

  /** The call read no more than the window it was given. */
  predicate Fits(c: Call)
  {
    c.step.Step? ==> c.step.availIn <= |c.window|
  }

  /** The stream once the calls of `trace` are made; a failed call leaves the
      stream as it was. */
  function After(trace: seq<Call>): Stream
    requires trace != [] ==> Fits(Last(trace))
  {
    if trace == [] then Fresh
    else
      var c := Last(trace);
      if c.step.Step? then Advance(c.stream, c.window, c.step) else c.stream
  }

  /** `trace` is a run of Inflate calls with an output buffer of `capacity`
      bytes: every call is `inflate` on a non-empty window and the stream the
      calls before it left, and every call but the last returned Z_OK. */
  ghost predicate Chained(inflate: Inflater, capacity: nat, trace: seq<Call>)
    decreases |trace|
  {
    trace != [] ==>
      var c, front := Last(trace), trace[..|trace| - 1];
      Chained(inflate, capacity, front) &&
      (front != [] ==> Last(front).step.Step? && Last(front).step.status == ZOk) &&
      c.stream == After(front) &&
      |c.window| > 0 && c.step == inflate(c.stream, c.window, capacity) && Fits(c)
  }

  /** The sum, over the calls of `trace`, of `inputLength - AvailIn()`: the
      bytes unpackEntryData hands to `use`. */
  ghost function Used(inflate: Inflater, capacity: nat, trace: seq<Call>): nat
    requires Chained(inflate, capacity, trace)
    decreases |trace|
  {
    if trace == [] then 0
    else
      var c := Last(trace);
      Used(inflate, capacity, trace[..|trace| - 1]) +
        (if c.step.Step? then |c.window| - c.step.availIn else 0)
  }

  /** Extending a run whose last call returned Z_OK by a call on the stream
      it left is a run. */
  lemma ChainedAppend(inflate: Inflater, capacity: nat, trace: seq<Call>, c: Call)
    requires Chained(inflate, capacity, trace)
    requires trace != [] ==> Last(trace).step.Step? && Last(trace).step.status == ZOk
    requires c.stream == After(trace) && |c.window| > 0
    requires c.step == inflate(c.stream, c.window, capacity) && Fits(c)
    ensures Chained(inflate, capacity, trace + [c])
  {
    assert (trace + [c])[..|trace|] == trace;
  }

  /** The stream has consumed exactly the bytes the calls were charged for:
      the sum of `inputLength - AvailIn()` over the run. */
  lemma {:induction false} UsedIsConsumed(inflate: Inflater, capacity: nat, trace: seq<Call>)
    requires Chained(inflate, capacity, trace)
    ensures |After(trace).consumed| == Used(inflate, capacity, trace)
    decreases |trace|
  {
    if trace != [] {
      UsedIsConsumed(inflate, capacity, trace[..|trace| - 1]);
    }
  }
}
