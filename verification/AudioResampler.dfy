/** The streaming linear resampler and the fixed-packet layer on top of it.

    Samples are interleaved by channel. Positions are exact rationals: `position` counts in units
    of one input frame divided by `outputRate`, so output frame `k` sits at `k * inputRate`.

    The module has three layers: the operations as the program performs them on its buffer, a
    closed form that looks only at the whole input stream, and proofs that the two agree on every
    sequence of calls. The classes at the end are the mutable objects; their methods are proved
    against the operations of the first layer. */
module AudioResampler {
  import opened Arithmetic

  const INTERPOLATION_MARGIN_FRAMES := 2
  const PENDING_PACKET_CAPACITY := 2
  const USIZE_MAX := 0xFFFF_FFFF_FFFF_FFFF

  datatype Config = Config(inputRate: nat, outputRate: nat, channels: nat) {
    predicate Usable() {
      inputRate > 0 && outputRate > 0 && channels > 0
    }
  }

  datatype Error =
    | InvalidConfig(config: Config)
    | InvalidOutputFrameSize(outputFrames: nat)
    | IncompleteFrame(samples: nat, channels: nat)
    | CapacityOverflow

  datatype Result<+T> = Ok(value: T) | Err(error: Error)

  // ---------------------------------------------------------------------------------------------
  // The operations on the buffer
  // ---------------------------------------------------------------------------------------------

  datatype State = State(buffered: seq<real>, position: nat)

  const FRESH := State([], 0)

  /** A frame can be written at `position` when it lies on an available frame, or strictly between
      two available frames. */
  predicate Ready(config: Config, frames: nat, position: nat)
    requires config.Usable()
  {
    var frame := position / config.outputRate;
    frame < frames && (position % config.outputRate == 0 || frame + 1 < frames)
  }

  predicate InFrame(config: Config, samples: seq<real>, frame: nat) {
    (frame + 1) * config.channels <= |samples|
  }

  function SampleAt(config: Config, samples: seq<real>, frame: nat, channel: nat): real
    requires InFrame(config, samples, frame) && channel < config.channels
  {
    assert frame * config.channels + channel < (frame + 1) * config.channels;
    samples[frame * config.channels + channel]
  }

  lemma FrameInRange(config: Config, samples: seq<real>, frame: nat)
    requires config.Usable() && frame < |samples| / config.channels
    ensures InFrame(config, samples, frame)
  {
    MulLeIffLeDiv(frame + 1, config.channels, |samples|);
  }

  lemma ReadyInRange(config: Config, samples: seq<real>, position: nat)
    requires config.Usable() && Ready(config, |samples| / config.channels, position)
    ensures Blendable(config, samples, position / config.outputRate, position % config.outputRate)
  {
    var frame := position / config.outputRate;
    FrameInRange(config, samples, frame);
    if position % config.outputRate != 0 {
      FrameInRange(config, samples, frame + 1);
    }
  }

  function Weighted(current: real, next: real, fraction: nat, outputRate: nat): real
    requires outputRate > 0
  {
    current + (next - current) * (fraction as real / outputRate as real)
  }

  lemma WeightedBy(current: real, next: real, fraction: nat, rate: nat, weight: real)
    requires rate > 0 && weight == fraction as real / rate as real
    ensures Weighted(current, next, fraction, rate) == current + (next - current) * weight
  {
  }

  /** The sample `fraction` / `outputRate` of the way from `frame` to the next one. */
  function Blend(config: Config, samples: seq<real>, frame: nat, fraction: nat, channel: nat): real
    requires config.Usable() && channel < config.channels
    requires InFrame(config, samples, frame)
    requires fraction != 0 ==> InFrame(config, samples, frame + 1)
  {
    var current := SampleAt(config, samples, frame, channel);
    var next := SampleAt(config, samples, if fraction != 0 then frame + 1 else frame, channel);
    Weighted(current, next, fraction, config.outputRate)
  }

  /** Whether `Blend` reads only available frames. */
  predicate Blendable(config: Config, samples: seq<real>, frame: nat, fraction: nat) {
    InFrame(config, samples, frame) && (fraction != 0 ==> InFrame(config, samples, frame + 1))
  }

  function BlendFrame(config: Config, samples: seq<real>, frame: nat, fraction: nat): (r: seq<real>)
    requires config.Usable() && Blendable(config, samples, frame, fraction)
    ensures |r| == config.channels
  {
    seq(config.channels, channel requires 0 <= channel < config.channels =>
      Blend(config, samples, frame, fraction, channel))
  }

  function FrameAt(config: Config, samples: seq<real>, position: nat): (frame: seq<real>)
    requires config.Usable() && Ready(config, |samples| / config.channels, position)
    ensures |frame| == config.channels
  {
    ReadyInRange(config, samples, position);
    BlendFrame(config, samples, position / config.outputRate, position % config.outputRate)
  }

  /** The write loop: emits every frame that is ready and reports where it stopped. */
  function WriteFrames(config: Config, samples: seq<real>, position: nat): (seq<real>, nat)
    requires config.Usable()
    decreases (|samples| / config.channels) * config.outputRate - position
  {
    if !Ready(config, |samples| / config.channels, position) then
      ([], position)
    else
      (ReadyBelowEnd(config, |samples| / config.channels, position);
       var (rest, end) := WriteFrames(config, samples, position + config.inputRate);
       (FrameAt(config, samples, position) + rest, end))
  }

  lemma ReadyBelowEnd(config: Config, frames: nat, position: nat)
    requires config.Usable() && Ready(config, frames, position)
    ensures position < frames * config.outputRate
  {
    MulLeIffLeDiv(frames, config.outputRate, position);
  }

  function Consumed(config: Config, samples: seq<real>, position: nat): (frames: nat)
    requires config.Usable()
    ensures frames * config.channels <= |samples| && frames * config.outputRate <= position
  {
    var available, passed := |samples| / config.channels, position / config.outputRate;
    var frames := if passed < available then passed else available;
    MulLeIffLeDiv(frames, config.channels, |samples|);
    MulLeIffLeDiv(frames, config.outputRate, position);
    frames
  }

  function Discard(config: Config, samples: seq<real>, position: nat): State
    requires config.Usable()
  {
    var frames := Consumed(config, samples, position);
    State(samples[frames * config.channels..], position - frames * config.outputRate)
  }

  function ValidateConfig(config: Config): Result<nat> {
    if config.inputRate == 0 || config.outputRate == 0 || config.channels == 0 then
      Err(InvalidConfig(config))
    else
      Ok(config.channels)
  }

  function ValidateInput(samples: nat, channels: nat): Result<()>
    requires channels > 0
  {
    if samples % channels != 0 then Err(IncompleteFrame(samples, channels)) else Ok(())
  }

  /** Multiplication of 64-bit sizes that reports overflow. */
  function CheckedMul(a: nat, b: nat): Result<nat> {
    if a * b > USIZE_MAX then Err(CapacityOverflow) else Ok(a * b)
  }

  /** The samples reserved for one call. */
  function OutputCapacity(config: Config, inputSamples: nat): Result<nat>
    requires config.Usable()
  {
    var scaled := CheckedMul(inputSamples / config.channels, config.outputRate);
    if scaled.Err? then scaled else
    var frames := scaled.value / config.inputRate + INTERPOLATION_MARGIN_FRAMES;
    if frames > USIZE_MAX then Err(CapacityOverflow) else CheckedMul(frames, config.channels)
  }

  /** Whether a call is rejected, and why, depends on the input's length alone. */
  function Rejection(config: Config, inputSamples: nat): Result<nat>
    requires config.Usable()
  {
    var valid := ValidateInput(inputSamples, config.channels);
    if valid.Err? then Err(valid.error) else OutputCapacity(config, inputSamples)
  }

  predicate Accepts(config: Config, input: seq<real>)
    requires config.Usable()
  {
    Rejection(config, |input|).Ok?
  }

  /** A call is accepted exactly if its input is whole frames, and neither the frames it is worth nor the
      samples reserved for them exceed the size of a word; those samples are two frames more than the
      input is worth. An incomplete frame is reported first. */
  lemma AcceptsIff(config: Config, input: seq<real>)
    requires config.Usable()
    ensures var worth := |input| / config.channels * config.outputRate;
            var reserved := (worth / config.inputRate + 2) * config.channels;
            && (Accepts(config, input) <==>
                  |input| % config.channels == 0 && worth <= 0xFFFF_FFFF_FFFF_FFFF && reserved <= 0xFFFF_FFFF_FFFF_FFFF)
            && Rejection(config, |input|)
               == if |input| % config.channels != 0 then Err(IncompleteFrame(|input|, config.channels))
                  else if Accepts(config, input) then Ok(reserved) else Err(CapacityOverflow)
  {
    var frames := |input| / config.channels * config.outputRate / config.inputRate + 2;
    MulMonotone(1, config.channels, frames);
  }

  /** An accepted call: the new state and the samples it appends to the output. */
  function Advance(config: Config, state: State, input: seq<real>): (State, seq<real>)
    requires config.Usable()
  {
    var samples := state.buffered + input;
    var (output, position) := WriteFrames(config, samples, state.position);
    (Discard(config, samples, position), output)
  }

  /** One call. A rejected one appends nothing and leaves the state alone. */
  function Process(config: Config, state: State, input: seq<real>): (State, seq<real>)
    requires config.Usable()
  {
    if Accepts(config, input) then Advance(config, state, input) else (state, [])
  }

  // ---------------------------------------------------------------------------------------------
  // The closed form over the whole stream
  // ---------------------------------------------------------------------------------------------

  /** How many output frames `frames` input frames are worth. */
  function Count(config: Config, frames: nat): nat
    requires config.Usable()
  {
    if frames == 0 then 0 else (frames - 1) * config.outputRate / config.inputRate + 1
  }

  /** Output frame `k` is due exactly when its position does not pass the last input frame. */
  lemma CountExact(config: Config, frames: nat, k: nat)
    requires config.Usable() && frames > 0
    ensures k < Count(config, frames) <==> k * config.inputRate <= (frames - 1) * config.outputRate
  {
    MulLeIffLeDiv(k, config.inputRate, (frames - 1) * config.outputRate);
  }

  lemma ReadyIffNotPast(config: Config, frames: nat, position: nat)
    requires config.Usable() && frames > 0
    ensures Ready(config, frames, position) <==> position <= (frames - 1) * config.outputRate
  {
    var last := frames - 1;
    var out := config.outputRate;
    var frame := position / out;
    MulLeIffLeDiv(last, out, position);
    assert position == frame * out + position % out;
    if frame < last {
      MulMonotone(frame + 1, last, out);
      assert (frame + 1) * out == frame * out + out;
    } else if frame > last {
      MulMonotone(last + 1, frame, out);
      assert (last + 1) * out == last * out + out;
    }
  }

  /** In a stream of `frames` input frames, output frame `k` can be written exactly when it is one
      of the counted ones. */
  lemma ReadyIffCounted(config: Config, frames: nat, k: nat)
    requires config.Usable()
    ensures Ready(config, frames, k * config.inputRate) <==> k < Count(config, frames)
  {
    if frames > 0 {
      ReadyIffNotPast(config, frames, k * config.inputRate);
      CountExact(config, frames, k);
    }
  }

  lemma CountMonotone(config: Config, fewer: nat, more: nat)
    requires config.Usable() && fewer <= more
    ensures Count(config, fewer) <= Count(config, more)
  {
    if 0 < fewer {
      MulMonotone(fewer - 1, more - 1, config.outputRate);
      MulLeIffLeDiv((fewer - 1) * config.outputRate / config.inputRate, config.inputRate,
                    (more - 1) * config.outputRate);
    }
  }

  /** Output frames `start` up to `stop` of the stream. */
  function Emitted(config: Config, stream: seq<real>, start: nat, stop: nat): seq<real>
    requires config.Usable() && start <= stop <= Count(config, |stream| / config.channels)
    decreases stop - start
  {
    if start == stop then []
    else
      (ReadyIffCounted(config, |stream| / config.channels, start);
       FrameAt(config, stream, start * config.inputRate) + Emitted(config, stream, start + 1, stop))
  }

  function Frames(config: Config, stream: seq<real>): nat
    requires config.Usable()
  {
    |stream| / config.channels
  }

  /** Everything the stream is worth. */
  function Output(config: Config, stream: seq<real>): seq<real>
    requires config.Usable()
  {
    Emitted(config, stream, 0, Count(config, Frames(config, stream)))
  }

  /** The state left after the stream, however it was cut into calls. */
  function Settled(config: Config, stream: seq<real>): State
    requires config.Usable()
  {
    Discard(config, stream, Count(config, Frames(config, stream)) * config.inputRate)
  }

  // ---------------------------------------------------------------------------------------------
  // Reading a frame from the buffer and reading it from the stream
  // ---------------------------------------------------------------------------------------------

  lemma FramesOfParts(config: Config, dropped: nat, stream: seq<real>)
    requires config.Usable() && dropped * config.channels <= |stream|
    ensures Frames(config, stream[dropped * config.channels..]) == Frames(config, stream) - dropped
  {
    DivModShift(|stream|, config.channels, dropped);
  }

  lemma SampleShift(config: Config, stream: seq<real>, dropped: nat, frame: nat, channel: nat)
    requires channel < config.channels && dropped * config.channels <= |stream|
    requires InFrame(config, stream[dropped * config.channels..], frame)
    ensures InFrame(config, stream, frame + dropped)
    ensures SampleAt(config, stream, frame + dropped, channel)
         == SampleAt(config, stream[dropped * config.channels..], frame, channel)
  {
    var c := config.channels;
    assert (frame + dropped + 1) * c == (frame + 1) * c + dropped * c;
    assert (frame + dropped) * c == frame * c + dropped * c;
  }

  lemma BlendShift(config: Config, stream: seq<real>, dropped: nat, frame: nat, fraction: nat, channel: nat)
    requires config.Usable() && channel < config.channels && dropped * config.channels <= |stream|
    requires Blendable(config, stream[dropped * config.channels..], frame, fraction)
    ensures Blendable(config, stream, frame + dropped, fraction)
    ensures Blend(config, stream, frame + dropped, fraction, channel)
         == Blend(config, stream[dropped * config.channels..], frame, fraction, channel)
  {
    SampleShift(config, stream, dropped, frame, channel);
    if fraction != 0 {
      SampleShift(config, stream, dropped, frame + 1, channel);
    }
  }

  lemma BlendFrameShift(config: Config, stream: seq<real>, dropped: nat, frame: nat, fraction: nat)
    requires config.Usable() && dropped * config.channels <= |stream|
    requires Blendable(config, stream[dropped * config.channels..], frame, fraction)
    ensures Blendable(config, stream, frame + dropped, fraction)
    ensures BlendFrame(config, stream, frame + dropped, fraction)
         == BlendFrame(config, stream[dropped * config.channels..], frame, fraction)
  {
    var rest := stream[dropped * config.channels..];
    BlendShift(config, stream, dropped, frame, fraction, 0);
    forall channel | 0 <= channel < config.channels
      ensures Blend(config, stream, frame + dropped, fraction, channel)
           == Blend(config, rest, frame, fraction, channel)
    {
      BlendShift(config, stream, dropped, frame, fraction, channel);
    }
  }

  lemma LocalParts(position: nat, out: nat, dropped: nat) returns (frame: nat, fraction: nat)
    requires out > 0 && dropped * out <= position
    ensures frame == (position - dropped * out) / out && frame + dropped == position / out
    ensures fraction == (position - dropped * out) % out == position % out
  {
    DivModShift(position, out, dropped);
    MulLeIffLeDiv(dropped, out, position);
    frame, fraction := position / out - dropped, position % out;
  }

  lemma ReadyShift(config: Config, stream: seq<real>, dropped: nat, position: nat)
    requires config.Usable() && dropped * config.channels <= |stream|
    requires dropped * config.outputRate <= position
    ensures Ready(config, Frames(config, stream[dropped * config.channels..]),
                  position - dropped * config.outputRate)
       <==> Ready(config, Frames(config, stream), position)
  {
    FramesOfParts(config, dropped, stream);
    DivModShift(position, config.outputRate, dropped);
  }

  /** Dropping whole frames and lowering the position by as much reads the same frame. */
  lemma FrameShift(config: Config, stream: seq<real>, dropped: nat, position: nat)
    requires config.Usable() && dropped * config.channels <= |stream|
    requires dropped * config.outputRate <= position
    requires Ready(config, Frames(config, stream), position)
    ensures Ready(config, Frames(config, stream[dropped * config.channels..]),
                  position - dropped * config.outputRate)
    ensures FrameAt(config, stream[dropped * config.channels..], position - dropped * config.outputRate)
         == FrameAt(config, stream, position)
  {
    ReadyShift(config, stream, dropped, position);
    ReadyInRange(config, stream[dropped * config.channels..], position - dropped * config.outputRate);
    var frame, fraction := LocalParts(position, config.outputRate, dropped);
    BlendFrameShift(config, stream, dropped, frame, fraction);
  }

  lemma BlendFrameStable(config: Config, stream: seq<real>, more: seq<real>, frame: nat, fraction: nat)
    requires config.Usable() && Blendable(config, stream, frame, fraction)
    ensures Blendable(config, stream + more, frame, fraction)
    ensures BlendFrame(config, stream + more, frame, fraction) == BlendFrame(config, stream, frame, fraction)
  {
    forall channel | 0 <= channel < config.channels
      ensures Blend(config, stream + more, frame, fraction, channel)
           == Blend(config, stream, frame, fraction, channel)
    {
      SampleStable(config, stream, more, frame, channel);
      if fraction != 0 {
        SampleStable(config, stream, more, frame + 1, channel);
      }
    }
  }

  lemma SampleStable(config: Config, stream: seq<real>, more: seq<real>, frame: nat, channel: nat)
    requires channel < config.channels && InFrame(config, stream, frame)
    ensures InFrame(config, stream + more, frame)
    ensures SampleAt(config, stream + more, frame, channel) == SampleAt(config, stream, frame, channel)
  {
    assert (frame + 1) * config.channels == frame * config.channels + config.channels;
  }

  lemma FramesGrow(config: Config, stream: seq<real>, more: seq<real>)
    requires config.Usable()
    ensures Frames(config, stream) <= Frames(config, stream + more)
  {
    MulLeIffLeDiv(Frames(config, stream), config.channels, |stream + more|);
  }

  /** More input does not change a frame that was already ready. */
  lemma FrameStable(config: Config, stream: seq<real>, more: seq<real>, position: nat)
    requires config.Usable() && Ready(config, Frames(config, stream), position)
    ensures Ready(config, Frames(config, stream + more), position)
    ensures FrameAt(config, stream + more, position) == FrameAt(config, stream, position)
  {
    FramesGrow(config, stream, more);
    ReadyInRange(config, stream, position);
    BlendFrameStable(config, stream, more, position / config.outputRate, position % config.outputRate);
  }

  lemma EmittedStable(config: Config, stream: seq<real>, more: seq<real>, start: nat, stop: nat)
    requires config.Usable() && start <= stop <= Count(config, Frames(config, stream))
    ensures stop <= Count(config, Frames(config, stream + more))
    ensures Emitted(config, stream + more, start, stop) == Emitted(config, stream, start, stop)
    decreases stop - start
  {
    FramesGrow(config, stream, more);
    CountMonotone(config, Frames(config, stream), Frames(config, stream + more));
    if start < stop {
      ReadyIffCounted(config, Frames(config, stream), start);
      FrameStable(config, stream, more, start * config.inputRate);
      EmittedStable(config, stream, more, start + 1, stop);
    }
  }

  lemma EmittedConcat(config: Config, stream: seq<real>, start: nat, mid: nat, stop: nat)
    requires config.Usable() && start <= mid <= stop <= Count(config, Frames(config, stream))
    ensures Emitted(config, stream, start, stop)
         == Emitted(config, stream, start, mid) + Emitted(config, stream, mid, stop)
    decreases mid - start
  {
    if start < mid {
      EmittedConcat(config, stream, start + 1, mid, stop);
    }
  }

  // ---------------------------------------------------------------------------------------------
  // One call keeps the closed form
  // ---------------------------------------------------------------------------------------------

  /** Run on what is left of the stream, the write loop emits exactly the outstanding frames. */
  lemma WriteFramesEmits(config: Config, stream: seq<real>, dropped: nat, k: nat)
    requires config.Usable()
    requires dropped * config.channels <= |stream|
    requires dropped * config.outputRate <= k * config.inputRate
    requires k <= Count(config, Frames(config, stream))
    ensures var count := Count(config, Frames(config, stream));
            dropped * config.outputRate <= count * config.inputRate
            && WriteFrames(config, stream[dropped * config.channels..],
                           k * config.inputRate - dropped * config.outputRate)
            == (Emitted(config, stream, k, count),
                count * config.inputRate - dropped * config.outputRate)
    decreases Count(config, Frames(config, stream)) - k
  {
    ReadyShift(config, stream, dropped, k * config.inputRate);
    ReadyIffCounted(config, Frames(config, stream), k);
    if k < Count(config, Frames(config, stream)) {
      assert (k + 1) * config.inputRate == k * config.inputRate + config.inputRate;
      FrameShift(config, stream, dropped, k * config.inputRate);
      WriteFramesEmits(config, stream, dropped, k + 1);
    }
  }

  /** Discarding in two steps is discarding once. */
  lemma DiscardTwice(config: Config, stream: seq<real>, dropped: nat, position: nat)
    requires config.Usable()
    requires dropped * config.channels <= |stream| && dropped * config.outputRate <= position
    ensures Discard(config, stream[dropped * config.channels..], position - dropped * config.outputRate)
         == Discard(config, stream, position)
  {
    var rest := stream[dropped * config.channels..];
    var local := position - dropped * config.outputRate;
    FramesOfParts(config, dropped, stream);
    DivModShift(position, config.outputRate, dropped);
    var frames := Consumed(config, rest, local);
    assert Consumed(config, stream, position) == frames + dropped;
    assert (frames + dropped) * config.channels == frames * config.channels + dropped * config.channels;
    assert (frames + dropped) * config.outputRate
        == frames * config.outputRate + dropped * config.outputRate;
  }

  lemma GrownFrames(config: Config, stream: seq<real>, input: seq<real>)
    requires config.Usable()
    ensures Frames(config, stream) <= Frames(config, stream + input)
    ensures Count(config, Frames(config, stream)) <= Count(config, Frames(config, stream + input))
  {
    FramesGrow(config, stream, input);
    CountMonotone(config, Frames(config, stream), Frames(config, stream + input));
  }

  /** What one accepted call does to the part of a stream that is still buffered. */
  lemma AdvanceRest(config: Config, stream: seq<real>, state: State, dropped: nat, k: nat, input: seq<real>)
    requires config.Usable() && k <= Count(config, Frames(config, stream))
    requires dropped * config.channels <= |stream| && dropped * config.outputRate <= k * config.inputRate
    requires state.buffered + input == stream[dropped * config.channels..]
    requires state.position == k * config.inputRate - dropped * config.outputRate
    ensures Advance(config, state, input)
         == (Settled(config, stream),
             Emitted(config, stream, k, Count(config, Frames(config, stream))))
  {
    WriteFramesEmits(config, stream, dropped, k);
    DiscardTwice(config, stream, dropped, Count(config, Frames(config, stream)) * config.inputRate);
  }

  lemma AppendToRest(stream: seq<real>, offset: nat, input: seq<real>)
    requires offset <= |stream|
    ensures offset <= |stream + input| && stream[offset..] + input == (stream + input)[offset..]
  {
  }

  /** From the settled state of any stream, one accepted call leaves the settled state of the
      longer stream and appends exactly the frames that became due. */
  lemma AdvanceSettled(config: Config, stream: seq<real>, input: seq<real>)
    requires config.Usable()
    ensures Count(config, Frames(config, stream)) <= Count(config, Frames(config, stream + input))
    ensures Advance(config, Settled(config, stream), input)
         == (Settled(config, stream + input),
             Emitted(config, stream + input, Count(config, Frames(config, stream)),
                     Count(config, Frames(config, stream + input))))
  {
    var before := Count(config, Frames(config, stream));
    var dropped := Consumed(config, stream, before * config.inputRate);
    GrownFrames(config, stream, input);
    AppendToRest(stream, dropped * config.channels, input);
    AdvanceRest(config, stream + input, Settled(config, stream), dropped, before, input);
  }

  lemma OutputGrows(config: Config, stream: seq<real>, input: seq<real>)
    requires config.Usable()
    ensures Count(config, Frames(config, stream)) <= Count(config, Frames(config, stream + input))
    ensures Output(config, stream + input)
         == Output(config, stream) + Emitted(config, stream + input, Count(config, Frames(config, stream)),
                                             Count(config, Frames(config, stream + input)))
  {
    var before, after := Count(config, Frames(config, stream)), Count(config, Frames(config, stream + input));
    GrownFrames(config, stream, input);
    EmittedStable(config, stream, input, 0, before);
    EmittedConcat(config, stream + input, 0, before, after);
  }

  // ---------------------------------------------------------------------------------------------
  // Whole runs
  // ---------------------------------------------------------------------------------------------

  /** A run of calls: the final state and all samples appended, in order. */
  function Run(config: Config, calls: seq<seq<real>>): (State, seq<real>)
    requires config.Usable()
  {
    if calls == [] then (FRESH, [])
    else
      var (state, output) := Run(config, calls[..|calls| - 1]);
      var (state', more) := Process(config, state, calls[|calls| - 1]);
      (state', output + more)
  }

  /** The input stream of a run: the accepted inputs, in order. */
  function Stream(config: Config, calls: seq<seq<real>>): seq<real>
    requires config.Usable()
  {
    if calls == [] then []
    else
      var last := calls[|calls| - 1];
      Stream(config, calls[..|calls| - 1]) + (if Accepts(config, last) then last else [])
  }

  lemma RunGrows(config: Config, stream: seq<real>, input: seq<real>)
    requires config.Usable()
    ensures var (state, more) := Advance(config, Settled(config, stream), input);
            && state == Settled(config, stream + input)
            && Output(config, stream) + more == Output(config, stream + input)
  {
    AdvanceSettled(config, stream, input);
    OutputGrows(config, stream, input);
  }

  /** Every run, whatever its chunk sizes and however many calls it had rejected, ends in the
      settled state of its input stream and has emitted exactly the batch output of that stream. */
  lemma {:induction false} StreamingEqualsBatch(config: Config, calls: seq<seq<real>>)
    requires config.Usable()
    ensures var stream := Stream(config, calls);
            Run(config, calls) == (Settled(config, stream), Output(config, stream))
  {
    if calls != [] {
      var init, last := calls[..|calls| - 1], calls[|calls| - 1];
      StreamingEqualsBatch(config, init);
      var stream := Stream(config, init);
      if Accepts(config, last) {
        RunGrows(config, stream, last);
        assert Stream(config, calls) == stream + last;
      } else {
        assert stream + [] == stream;
        assert Output(config, stream) + [] == Output(config, stream);
      }
    }
  }

  /** Two ways to cut the same stream into accepted calls cannot be told apart. */
  lemma ChunkInvariance(config: Config, calls: seq<seq<real>>, others: seq<seq<real>>)
    requires config.Usable() && Stream(config, calls) == Stream(config, others)
    ensures Run(config, calls) == Run(config, others)
  {
    StreamingEqualsBatch(config, calls);
    StreamingEqualsBatch(config, others);
  }

  /** In particular, one call on the whole input. */
  lemma SameAsOneCall(config: Config, calls: seq<seq<real>>)
    requires config.Usable() && Accepts(config, Stream(config, calls))
    ensures Run(config, calls) == Process(config, FRESH, Stream(config, calls))
  {
    var whole := Stream(config, calls);
    OneCall(config, whole);
    ChunkInvariance(config, calls, [whole]);
  }

  lemma OneCall(config: Config, input: seq<real>)
    requires config.Usable()
    ensures Run(config, [input]) == Process(config, FRESH, input)
    ensures Stream(config, [input]) == if Accepts(config, input) then input else []
  {
    assert [input][..0] == [];
    assert Run(config, []) == (FRESH, []);
    assert Stream(config, []) == [];
    var output := Process(config, FRESH, input).1;
    assert [] + output == output;
  }

  /** A position just past the last frame is left with less than one step beyond what is dropped. */
  lemma LeftoverIsBounded(frames: nat, out: nat, step: nat, position: nat, dropped: nat)
    requires frames > 0 && out > 0 && step > 0
    requires (frames - 1) * out < position <= (frames - 1) * out + step
    requires dropped == if position / out < frames then position / out else frames
    ensures frames - 1 <= dropped <= frames
    ensures position - dropped * out < step || position - dropped * out < out
  {
    MulLeIffLeDiv(frames - 1, out, position);
    assert frames * out == (frames - 1) * out + out;
    assert position == position / out * out + position % out;
  }

  lemma CountBrackets(config: Config, frames: nat)
    requires config.Usable() && frames > 0
    ensures var position, last := Count(config, frames) * config.inputRate, (frames - 1) * config.outputRate;
            last < position <= last + config.inputRate
  {
    var count := Count(config, frames);
    CountExact(config, frames, count);
    CountExact(config, frames, count - 1);
    assert count * config.inputRate == (count - 1) * config.inputRate + config.inputRate;
  }

  /** Between calls at most one frame is buffered and the position stays below both rates' maximum. */
  lemma SettledIsBounded(config: Config, stream: seq<real>)
    requires config.Usable() && |stream| % config.channels == 0
    ensures var state := Settled(config, stream);
            && |state.buffered| <= config.channels
            && (state.position < config.inputRate || state.position < config.outputRate)
  {
    var frames := Frames(config, stream);
    if frames > 0 {
      var position := Count(config, frames) * config.inputRate;
      var dropped := Consumed(config, stream, position);
      CountBrackets(config, frames);
      LeftoverIsBounded(frames, config.outputRate, config.inputRate, position, dropped);
      OneFrameLeft(|stream|, config.channels, dropped);
    }
  }

  lemma OneFrameLeft(samples: nat, channels: nat, dropped: nat)
    requires channels > 0 && samples % channels == 0
    requires samples / channels - 1 <= dropped <= samples / channels
    ensures samples - dropped * channels <= channels
  {
    assert samples == samples / channels * channels;
    MulMonotone(samples / channels, dropped + 1, channels);
    assert (dropped + 1) * channels == dropped * channels + channels;
  }

  lemma WholeFramesAdd(a: nat, b: nat, c: nat)
    requires c > 0 && a % c == 0 && b % c == 0
    ensures (a + b) % c == 0 && (a + b) / c == a / c + b / c
  {
    var q := a / c + b / c;
    assert a == a / c * c && b == b / c * c;
    assert q * c == a / c * c + b / c * c;
    DivModUnique(a + b, c, q, 0);
  }

  lemma {:induction false} StreamIsWholeFrames(config: Config, calls: seq<seq<real>>)
    requires config.Usable()
    ensures |Stream(config, calls)| % config.channels == 0
  {
    if calls != [] {
      var init, last := calls[..|calls| - 1], calls[|calls| - 1];
      StreamIsWholeFrames(config, init);
      if Accepts(config, last) {
        WholeFramesAdd(|Stream(config, init)|, |last|, config.channels);
      }
    }
  }

  lemma RunIsBounded(config: Config, calls: seq<seq<real>>)
    requires config.Usable()
    ensures var (state, _) := Run(config, calls);
            && |state.buffered| <= config.channels
            && (state.position < config.inputRate || state.position < config.outputRate)
  {
    StreamingEqualsBatch(config, calls);
    StreamIsWholeFrames(config, calls);
    SettledIsBounded(config, Stream(config, calls));
  }

  lemma PeakBound(frames: nat, added: nat, out: nat, step: nat, end: nat, dropped: nat)
    requires frames + added > 0 && dropped >= frames - 1
    requires end <= (frames + added - 1) * out + step
    ensures end - dropped * out <= added * out + step
  {
    assert (frames + added - 1) * out == (frames - 1) * out + added * out;
    if frames > 0 {
      MulMonotone(frames - 1, dropped, out);
    } else {
      assert (frames - 1) * out <= 0 && dropped * out >= 0;
    }
  }

  lemma DroppedBound(config: Config, stream: seq<real>)
    requires config.Usable()
    ensures Consumed(config, stream, Count(config, Frames(config, stream)) * config.inputRate)
         >= Frames(config, stream) - 1
  {
    var frames := Frames(config, stream);
    if frames > 0 {
      var position := Count(config, frames) * config.inputRate;
      CountBrackets(config, frames);
      LeftoverIsBounded(frames, config.outputRate, config.inputRate, position, Consumed(config, stream, position));
    }
  }

  /** Within a call the position peaks when the loop ends. It never exceeds the checked product of input
      frames and output rate by more than one step, so a 64-bit position can wrap only there. */
  lemma PeakIsBounded(config: Config, calls: seq<seq<real>>, input: seq<real>)
    requires config.Usable() && Accepts(config, input)
    ensures var state := Run(config, calls).0;
            WriteFrames(config, state.buffered + input, state.position).1
            <= Frames(config, input) * config.outputRate + config.inputRate
  {
    var stream := Stream(config, calls);
    var before := Count(config, Frames(config, stream));
    var dropped := Consumed(config, stream, before * config.inputRate);
    StreamingEqualsBatch(config, calls);
    StreamIsWholeFrames(config, calls);
    WholeFramesAdd(|stream|, |input|, config.channels);
    GrownFrames(config, stream, input);
    AppendToRest(stream, dropped * config.channels, input);
    WriteFramesEmits(config, stream + input, dropped, before);
    DroppedBound(config, stream);
    PeakOfStream(config, Frames(config, stream), Frames(config, input), dropped);
  }

  lemma PeakOfStream(config: Config, frames: nat, added: nat, dropped: nat)
    requires config.Usable() && dropped >= frames - 1
    ensures Count(config, frames + added) * config.inputRate - dropped * config.outputRate
         <= added * config.outputRate + config.inputRate
  {
    if frames + added > 0 {
      CountBrackets(config, frames + added);
      PeakBound(frames, added, config.outputRate, config.inputRate,
                Count(config, frames + added) * config.inputRate, dropped);
    }
  }

  lemma EmittedLength(config: Config, stream: seq<real>, start: nat, stop: nat)
    requires config.Usable() && start <= stop <= Count(config, Frames(config, stream))
    ensures |Emitted(config, stream, start, stop)| == (stop - start) * config.channels
    decreases stop - start
  {
    if start < stop {
      EmittedLength(config, stream, start + 1, stop);
      assert (stop - start) * config.channels == (stop - (start + 1)) * config.channels + config.channels;
    }
  }

  /** No call in any run emits more than it reserved. */
  lemma CapacitySuffices(config: Config, calls: seq<seq<real>>, input: seq<real>)
    requires config.Usable() && Accepts(config, input)
    ensures |Process(config, Run(config, calls).0, input).1| <= Rejection(config, |input|).value
  {
    var stream := Stream(config, calls);
    StreamingEqualsBatch(config, calls);
    StreamIsWholeFrames(config, calls);
    AdvanceSettled(config, stream, input);
    WholeFramesAdd(|stream|, |input|, config.channels);
    AdvanceLength(config, stream, input);
  }

  lemma AdvanceLength(config: Config, stream: seq<real>, input: seq<real>)
    requires config.Usable()
    requires Frames(config, stream + input) == Frames(config, stream) + Frames(config, input)
    ensures Count(config, Frames(config, stream)) <= Count(config, Frames(config, stream + input))
    ensures |Emitted(config, stream + input, Count(config, Frames(config, stream)),
                     Count(config, Frames(config, stream + input)))|
         <= (Frames(config, input) * config.outputRate / config.inputRate + INTERPOLATION_MARGIN_FRAMES)
            * config.channels
  {
    var before, after := Count(config, Frames(config, stream)), Count(config, Frames(config, stream + input));
    GrownFrames(config, stream, input);
    EmittedLength(config, stream + input, before, after);
    CountGrowth(config, Frames(config, stream), Frames(config, input));
    MulMonotone(after - before,
                Frames(config, input) * config.outputRate / config.inputRate + INTERPOLATION_MARGIN_FRAMES,
                config.channels);
  }

  lemma CountGrowth(config: Config, frames: nat, added: nat)
    requires config.Usable()
    ensures Count(config, frames + added)
         <= Count(config, frames) + added * config.outputRate / config.inputRate + INTERPOLATION_MARGIN_FRAMES
  {
    if frames > 0 {
      DivGrowth(frames - 1, added, config.outputRate, config.inputRate);
    } else if added > 0 {
      DivGrowth(added - 1, 1, config.outputRate, config.inputRate);
    }
  }

  lemma DivGrowth(a: nat, b: nat, m: nat, d: nat)
    requires d > 0
    ensures a * m / d <= (a + b) * m / d <= a * m / d + b * m / d + 1
  {
    var x, y := a * m, b * m;
    assert (a + b) * m == x + y;
    DivAdd(x, y, d);
  }

  // ---------------------------------------------------------------------------------------------
  // What the samples are
  // ---------------------------------------------------------------------------------------------

  lemma SampleIndex(config: Config, samples: seq<real>, frame: nat, channel: nat)
    requires InFrame(config, samples, frame) && channel < config.channels
    ensures 0 <= frame * config.channels + channel < |samples|
    ensures SampleAt(config, samples, frame, channel) == samples[frame * config.channels + channel]
  {
    assert frame * config.channels + channel < (frame + 1) * config.channels;
  }

  /** Linear interpolation of one channel of a stream at a real-valued frame position. Frame `n` of the
      stream has the sample of channel `c` at index `n * channels + c`. */
  ghost function LinearAt(config: Config, stream: seq<real>, channel: nat, x: real): real
    requires config.Usable() && channel < config.channels && 0.0 <= x
    requires InFrame(config, stream, x.Floor)
    requires x != x.Floor as real ==> InFrame(config, stream, x.Floor + 1)
  {
    SampleIndex(config, stream, x.Floor, channel);
    var left := stream[x.Floor * config.channels + channel];
    if x == x.Floor as real then left
    else
      SampleIndex(config, stream, x.Floor + 1, channel);
      var right := stream[(x.Floor + 1) * config.channels + channel];
      left + (right - left) * (x - x.Floor as real)
  }

  lemma RationalParts(p: nat, d: nat)
    requires d > 0
    ensures var x := p as real / d as real;
            x.Floor == p / d && x - x.Floor as real == (p % d) as real / d as real
  {
    var q, r := p / d, p % d;
    assert p == q * d + r;
    assert p as real == q as real * d as real + r as real;
    assert p as real / d as real == q as real + r as real / d as real;
    assert 0.0 <= r as real / d as real < 1.0;
  }

  /** Frame `k` stands between the frames before it and the frames after it. */
  lemma EmittedFrame(config: Config, stream: seq<real>, k: nat, stop: nat)
    requires config.Usable() && k < stop <= Count(config, Frames(config, stream))
    ensures Ready(config, Frames(config, stream), k * config.inputRate)
    ensures Emitted(config, stream, 0, stop)
         == Emitted(config, stream, 0, k) + (FrameAt(config, stream, k * config.inputRate)
                                             + Emitted(config, stream, k + 1, stop))
  {
    ReadyIffCounted(config, Frames(config, stream), k);
    EmittedConcat(config, stream, 0, k, stop);
  }

  lemma AtOffset(before: seq<real>, frame: seq<real>, after: seq<real>, channel: nat)
    requires channel < |frame|
    ensures (before + (frame + after))[|before| + channel] == frame[channel]
  {
  }

  /** The real-valued position of output frame `k`, in input frames. */
  function PositionOf(config: Config, k: nat): real
    requires config.Usable()
  {
    (k * config.inputRate) as real / config.outputRate as real
  }

  lemma BlendIsLinear(config: Config, stream: seq<real>, position: nat, channel: nat)
    requires config.Usable() && channel < config.channels
    requires Ready(config, Frames(config, stream), position)
    ensures var x := position as real / config.outputRate as real;
            && 0.0 <= x
            && InFrame(config, stream, x.Floor)
            && (x != x.Floor as real ==> InFrame(config, stream, x.Floor + 1))
            && FrameAt(config, stream, position)[channel] == LinearAt(config, stream, channel, x)
  {
    RationalParts(position, config.outputRate);
    ReadyInRange(config, stream, position);
    var frame := position / config.outputRate;
    SampleIndex(config, stream, frame, channel);
    if position % config.outputRate != 0 {
      SampleIndex(config, stream, frame + 1, channel);
    }
  }

  /** Sample `channel` of output frame `k`, as the input stream defines it. */
  ghost function Interpolated(config: Config, stream: seq<real>, k: nat, channel: nat): real
    requires config.Usable() && channel < config.channels && k < Count(config, Frames(config, stream))
  {
    ReadyIffCounted(config, Frames(config, stream), k);
    BlendIsLinear(config, stream, k * config.inputRate, channel);
    LinearAt(config, stream, channel, PositionOf(config, k))
  }

  /** After any run there are exactly `Count` output frames, and every channel of frame `k` is the
      linear interpolation of the input stream at position `k * inputRate / outputRate`. */
  lemma OutputIsInterpolation(config: Config, calls: seq<seq<real>>, k: nat, channel: nat)
    requires config.Usable() && channel < config.channels
    requires k < Count(config, Frames(config, Stream(config, calls)))
    ensures |Run(config, calls).1| == Count(config, Frames(config, Stream(config, calls))) * config.channels
    ensures 0 <= k * config.channels + channel < |Run(config, calls).1|
    ensures Run(config, calls).1[k * config.channels + channel]
         == Interpolated(config, Stream(config, calls), k, channel)
  {
    StreamingEqualsBatch(config, calls);
    OutputSample(config, Stream(config, calls), k, channel);
  }

  lemma OutputSample(config: Config, stream: seq<real>, k: nat, channel: nat)
    requires config.Usable() && channel < config.channels && k < Count(config, Frames(config, stream))
    ensures |Output(config, stream)| == Count(config, Frames(config, stream)) * config.channels
    ensures 0 <= k * config.channels + channel < |Output(config, stream)|
    ensures Output(config, stream)[k * config.channels + channel]
         == Interpolated(config, stream, k, channel)
  {
    var count := Count(config, Frames(config, stream));
    EmittedLength(config, stream, 0, count);
    EmittedLength(config, stream, 0, k);
    EmittedFrame(config, stream, k, count);
    AtOffset(Emitted(config, stream, 0, k), FrameAt(config, stream, k * config.inputRate),
             Emitted(config, stream, k + 1, count), channel);
    BlendIsLinear(config, stream, k * config.inputRate, channel);
  }

  lemma CountAtEqualRates(config: Config, frames: nat)
    requires config.Usable() && config.inputRate == config.outputRate
    ensures Count(config, frames) == frames
  {
    if frames > 0 {
      DivModUnique((frames - 1) * config.outputRate, config.inputRate, frames - 1, 0);
    }
  }

  lemma InterpolatedAtEqualRates(config: Config, stream: seq<real>, k: nat, channel: nat)
    requires config.Usable() && config.inputRate == config.outputRate && channel < config.channels
    requires k < Frames(config, stream)
    ensures k < Count(config, Frames(config, stream)) && 0 <= k * config.channels + channel < |stream|
    ensures Interpolated(config, stream, k, channel) == stream[k * config.channels + channel]
  {
    CountAtEqualRates(config, Frames(config, stream));
    FrameInRange(config, stream, k);
    SampleIndex(config, stream, k, channel);
    assert PositionOf(config, k) == k as real;
  }

  lemma LengthAtEqualRates(config: Config, calls: seq<seq<real>>)
    requires config.Usable() && config.inputRate == config.outputRate
    ensures |Run(config, calls).1| == |Stream(config, calls)|
  {
    var stream := Stream(config, calls);
    StreamIsWholeFrames(config, calls);
    StreamingEqualsBatch(config, calls);
    CountAtEqualRates(config, Frames(config, stream));
    EmittedLength(config, stream, 0, Frames(config, stream));
    WholeFrames(|stream|, config.channels);
  }

  lemma WholeFrames(n: nat, c: nat)
    requires c > 0 && n % c == 0
    ensures n == n / c * c
  {
  }

  /** At equal rates every run gives back exactly its accepted input, sample by sample. */
  lemma EqualRatesGiveTheInput(config: Config, calls: seq<seq<real>>)
    requires config.Usable() && config.inputRate == config.outputRate
    ensures Run(config, calls).1 == Stream(config, calls)
  {
    LengthAtEqualRates(config, calls);
    forall i | 0 <= i < |Stream(config, calls)| ensures Run(config, calls).1[i] == Stream(config, calls)[i] {
      SampleOfRun(config, calls, i);
    }
  }

  lemma SampleOfRun(config: Config, calls: seq<seq<real>>, i: nat)
    requires config.Usable() && config.inputRate == config.outputRate
    requires i < |Stream(config, calls)|
    ensures i < |Run(config, calls).1| && Run(config, calls).1[i] == Stream(config, calls)[i]
  {
    var stream, k, channel := Stream(config, calls), i / config.channels, i % config.channels;
    StreamIsWholeFrames(config, calls);
    IndexParts(i, config.channels, |stream|);
    InterpolatedAtEqualRates(config, stream, k, channel);
    OutputIsInterpolation(config, calls, k, channel);
  }

  lemma IndexParts(i: nat, c: nat, n: nat)
    requires c > 0 && n % c == 0 && i < n
    ensures i == i / c * c + i % c && i / c < n / c
  {
    assert n == n / c * c;
    if i / c >= n / c {
      MulMonotone(n / c, i / c, c);
    }
  }

  // ---------------------------------------------------------------------------------------------
  // Fixed-size packets
  // ---------------------------------------------------------------------------------------------

  /** The whole packets at the front of `samples`, and what is left over. */
  function SplitPackets(samples: seq<real>, size: nat): (seq<seq<real>>, seq<real>)
    requires size > 0
  {
    if |samples| < size then ([], samples)
    else
      var (packets, rest) := SplitPackets(samples[size..], size);
      ([samples[..size]] + packets, rest)
  }

  function Flatten(packets: seq<seq<real>>): seq<real> {
    if packets == [] then [] else packets[0] + Flatten(packets[1..])
  }

  /** The packet loop: visits the whole packets in order, then drains them. */
  method CutPackets(samples: seq<real>, size: nat) returns (packets: seq<seq<real>>, rest: seq<real>)
    requires size > 0
    ensures (packets, rest) == SplitPackets(samples, size)
  {
    packets, rest := [], samples;
    ghost var all := SplitPackets(samples, size);
    assert packets + all.0 == all.0;
    while |rest| >= size
      invariant packets + SplitPackets(rest, size).0 == all.0
      invariant SplitPackets(rest, size).1 == all.1
      decreases |rest|
    {
      ghost var later := SplitPackets(rest[size..], size).0;
      assert packets + ([rest[..size]] + later) == (packets + [rest[..size]]) + later;
      packets, rest := packets + [rest[..size]], rest[size..];
    }
    assert packets + [] == packets;
  }

  datatype PacketState = PacketState(resampler: State, pending: seq<real>)

  /** One call of the packet layer: the new state and the packets handed to the callback. */
  function ProcessPackets(config: Config, size: nat, state: PacketState, input: seq<real>)
      : (PacketState, seq<seq<real>>)
    requires config.Usable() && size > 0
  {
    if !Accepts(config, input) then (state, [])
    else
      var (resampler, more) := Process(config, state.resampler, input);
      var (packets, rest) := SplitPackets(state.pending + more, size);
      (PacketState(resampler, rest), packets)
  }

  function PacketRun(config: Config, size: nat, calls: seq<seq<real>>): (PacketState, seq<seq<real>>)
    requires config.Usable() && size > 0
  {
    if calls == [] then (PacketState(FRESH, []), [])
    else
      var (state, delivered) := PacketRun(config, size, calls[..|calls| - 1]);
      var (state', packets) := ProcessPackets(config, size, state, calls[|calls| - 1]);
      (state', delivered + packets)
  }

  lemma FlattenCons(first: seq<real>, packets: seq<seq<real>>)
    ensures Flatten([first] + packets) == first + Flatten(packets)
  {
    assert ([first] + packets)[1..] == packets;
  }

  lemma Reassemble(samples: seq<real>, size: nat, middle: seq<real>, rest: seq<real>)
    requires size <= |samples| && middle + rest == samples[size..]
    ensures samples[..size] + middle + rest == samples
  {
    assert samples[..size] + middle + rest == samples[..size] + (middle + rest);
  }

  lemma {:induction false} SplitConserves(samples: seq<real>, size: nat)
    requires size > 0
    ensures Flatten(SplitPackets(samples, size).0) + SplitPackets(samples, size).1 == samples
    decreases |samples|
  {
    if |samples| >= size {
      SplitConserves(samples[size..], size);
      var split := SplitPackets(samples[size..], size);
      FlattenCons(samples[..size], split.0);
      Reassemble(samples, size, Flatten(split.0), split.1);
    }
  }

  lemma {:induction false} SplitSizes(samples: seq<real>, size: nat)
    requires size > 0
    ensures |SplitPackets(samples, size).1| < size
    ensures forall i | 0 <= i < |SplitPackets(samples, size).0| :: |SplitPackets(samples, size).0[i]| == size
    decreases |samples|
  {
    if |samples| >= size {
      SplitSizes(samples[size..], size);
    }
  }

  /** Splitting what was left over together with what comes next is splitting everything at once. */
  lemma {:induction false} SplitAppend(samples: seq<real>, more: seq<real>, size: nat)
    requires size > 0
    ensures var (packets, rest) := SplitPackets(samples, size);
            var (packets', rest') := SplitPackets(rest + more, size);
            SplitPackets(samples + more, size) == (packets + packets', rest')
    decreases |samples|
  {
    if |samples| >= size {
      SplitAppend(samples[size..], more, size);
      assert (samples + more)[size..] == samples[size..] + more;
      assert (samples + more)[..size] == samples[..size];
      var (packets, rest) := SplitPackets(samples[size..], size);
      var packets' := SplitPackets(rest + more, size).0;
      assert [samples[..size]] + (packets + packets') == [samples[..size]] + packets + packets';
    } else {
      var packets := SplitPackets(samples + more, size).0;
      assert [] + packets == packets;
    }
  }

  /** In every run the delivered packets and the pending samples are the batch output cut into
      packets, so neither depends on how the input was cut into calls. */
  lemma {:induction false} PacketsAreSplitOutput(config: Config, size: nat, calls: seq<seq<real>>)
    requires config.Usable() && size > 0
    ensures var (state, delivered) := PacketRun(config, size, calls);
            && state.resampler == Run(config, calls).0
            && (delivered, state.pending) == SplitPackets(Output(config, Stream(config, calls)), size)
  {
    StreamingEqualsBatch(config, calls);
    if calls != [] {
      var init, last := calls[..|calls| - 1], calls[|calls| - 1];
      PacketsAreSplitOutput(config, size, init);
      StreamingEqualsBatch(config, init);
      var (state, output) := Run(config, init);
      if Accepts(config, last) {
        SplitAppend(output, Process(config, state, last).1, size);
      } else {
        assert output + [] == output;
        var delivered := PacketRun(config, size, init).1;
        assert delivered + [] == delivered;
      }
    }
  }

  /** Nothing is lost, duplicated or reordered on the way into packets. */
  lemma PacketConservation(config: Config, size: nat, calls: seq<seq<real>>)
    requires config.Usable() && size > 0
    ensures var (state, delivered) := PacketRun(config, size, calls);
            && Flatten(delivered) + state.pending == Run(config, calls).1
            && |state.pending| < size
            && forall i | 0 <= i < |delivered| :: |delivered[i]| == size
  {
    PacketsAreSplitOutput(config, size, calls);
    StreamingEqualsBatch(config, calls);
    SplitConserves(Output(config, Stream(config, calls)), size);
    SplitSizes(Output(config, Stream(config, calls)), size);
  }

  function DivCeil(a: nat, b: nat): nat
    requires b > 0
  {
    (a + b - 1) / b
  }

  /** The least number of times `b` that makes up `a`. */
  lemma DivCeilIsLeast(a: nat, b: nat)
    requires b > 0
    ensures a <= DivCeil(a, b) * b < a + b
  {
    var n := a + b - 1;
    assert n == n / b * b + n % b;
  }

  /** Whether a packet of so many frames, or the buffers made for it, would be too large to measure. */
  predicate PacketTooLarge(config: Config, outputFrames: nat)
    requires config.Usable()
  {
    || outputFrames * config.inputRate > USIZE_MAX
    || (outputFrames + 1) * config.channels * 2 > USIZE_MAX
    || (DivCeil(outputFrames * config.inputRate, config.outputRate) + 2) * config.channels > USIZE_MAX
  }

  /** The checks made when the packet layer is built; the value is the packet size in samples. */
  function PacketSize(config: Config, outputFrames: nat): (r: Result<nat>)
    ensures r.Ok? ==> config.Usable() && r.value == outputFrames * config.channels && r.value > 0
    ensures outputFrames == 0 ==> r == Err(InvalidOutputFrameSize(0))
    ensures outputFrames > 0 && !config.Usable() ==> r == Err(InvalidConfig(config))
    ensures outputFrames > 0 && config.Usable() ==>
              r == if PacketTooLarge(config, outputFrames) then Err(CapacityOverflow)
                   else Ok(outputFrames * config.channels)
  {
    if outputFrames == 0 then Err(InvalidOutputFrameSize(outputFrames)) else
    if !config.Usable() then Err(InvalidConfig(config)) else
    var outputSamples := outputFrames * config.channels;
    assert outputSamples > 0;
    assert (outputFrames + 1) * config.channels * 2 == outputSamples * 2 + config.channels * 2;
    if outputSamples > USIZE_MAX then Err(CapacityOverflow) else
    if outputFrames * config.inputRate > USIZE_MAX then Err(CapacityOverflow) else
    var inputFrames := DivCeil(outputFrames * config.inputRate, config.outputRate);
    if outputSamples * PENDING_PACKET_CAPACITY > USIZE_MAX then Err(CapacityOverflow) else
    var capacity := outputSamples * PENDING_PACKET_CAPACITY
                    + config.channels * INTERPOLATION_MARGIN_FRAMES;
    if capacity > USIZE_MAX then Err(CapacityOverflow) else
    if inputFrames + INTERPOLATION_MARGIN_FRAMES > USIZE_MAX then
      MulMonotone(1, config.channels, inputFrames + INTERPOLATION_MARGIN_FRAMES);
      Err(CapacityOverflow)
    else if (inputFrames + INTERPOLATION_MARGIN_FRAMES) * config.channels > USIZE_MAX then
      Err(CapacityOverflow)
    else Ok(outputSamples)
  }

  // ---------------------------------------------------------------------------------------------
  // The objects
  // ---------------------------------------------------------------------------------------------

  class StreamingLinearAudioResampler {
    const config: Config
    var bufferedSamples: seq<real>
    var nextPosition: nat

    constructor (config: Config)
      requires ValidateConfig(config).Ok?
      ensures this.config == config && config.Usable() && Current() == FRESH
    {
      this.config := config;
      bufferedSamples := [];
      nextPosition := 0;
    }

    function Current(): State
      reads this
    {
      State(bufferedSamples, nextPosition)
    }

    /** The channel loop. */
    method AppendBlend(output: seq<real>, frame: nat, fraction: nat) returns (extended: seq<real>)
      requires config.Usable() && Blendable(config, bufferedSamples, frame, fraction)
      ensures extended == output + BlendFrame(config, bufferedSamples, frame, fraction)
    {
      extended := output;
      ghost var whole := BlendFrame(config, bufferedSamples, frame, fraction);
      var weight := fraction as real / config.outputRate as real;
      for channel := 0 to config.channels
        invariant extended == output + whole[..channel]
      {
        var current := SampleAt(config, bufferedSamples, frame, channel);
        var nextFrame := if fraction != 0 then frame + 1 else frame;
        var next := SampleAt(config, bufferedSamples, nextFrame, channel);
        var sample := current + (next - current) * weight;
        WeightedBy(current, next, fraction, config.outputRate, weight);
        assert whole[channel] == Blend(config, bufferedSamples, frame, fraction, channel) == sample;
        assert output + whole[..channel + 1] == output + whole[..channel] + [sample];
        extended := extended + [sample];
      }
    }

    /** Appends the frame at the current position, if it can be written yet. */
    method WriteNextFrame(output: seq<real>) returns (written: bool, extended: seq<real>)
      requires config.Usable()
      ensures written <==> Ready(config, |bufferedSamples| / config.channels, nextPosition)
      ensures written ==> extended == output + FrameAt(config, bufferedSamples, nextPosition)
      ensures !written ==> extended == output
    {
      extended := output;
      var frameCount := |bufferedSamples| / config.channels;
      var frame := nextPosition / config.outputRate;
      var fraction := nextPosition % config.outputRate;
      if frame >= frameCount || (fraction != 0 && frame + 1 >= frameCount) {
        return false, extended;
      }
      ReadyInRange(config, bufferedSamples, nextPosition);
      extended := AppendBlend(extended, frame, fraction);
      written := true;
    }

    method WriteAvailable(output: seq<real>) returns (extended: seq<real>)
      requires config.Usable()
      modifies this`nextPosition
      ensures var (more, end) := WriteFrames(config, bufferedSamples, old(nextPosition));
              extended == output + more && nextPosition == end
    {
      extended := output;
      ghost var more := WriteFrames(config, bufferedSamples, nextPosition).0;
      ghost var end := WriteFrames(config, bufferedSamples, nextPosition).1;
      ghost var limit := |bufferedSamples| / config.channels * config.outputRate;
      var written := true;
      while written
        invariant var (rest, stop) := WriteFrames(config, bufferedSamples, nextPosition);
                  extended + rest == output + more && stop == end
        invariant !written ==> !Ready(config, |bufferedSamples| / config.channels, nextPosition)
        decreases written, limit - nextPosition
      {
        ghost var before := extended;
        written, extended := WriteNextFrame(extended);
        if written {
          ReadyBelowEnd(config, |bufferedSamples| / config.channels, nextPosition);
          ghost var frame := FrameAt(config, bufferedSamples, nextPosition);
          nextPosition := nextPosition + config.inputRate;
          ghost var rest := WriteFrames(config, bufferedSamples, nextPosition).0;
          assert before + (frame + rest) == (before + frame) + rest;
        }
      }
      assert extended + [] == extended;
    }

    method DiscardConsumedFrames()
      requires config.Usable()
      modifies this
      ensures Current() == Discard(config, old(bufferedSamples), old(nextPosition))
    {
      var available := |bufferedSamples| / config.channels;
      var consumed := nextPosition / config.outputRate;
      if available < consumed {
        consumed := available;
      }
      assert consumed == Consumed(config, bufferedSamples, nextPosition);
      bufferedSamples := bufferedSamples[consumed * config.channels..];
      nextPosition := nextPosition - consumed * config.outputRate;
    }

    method ProcessInto(input: seq<real>, output: seq<real>)
        returns (r: Result<()>, extended: seq<real>)
      requires config.Usable()
      modifies this
      ensures r.Ok? <==> Accepts(config, input)
      ensures r.Err? ==> r.error == Rejection(config, |input|).error && unchanged(this)
      ensures var (state, more) := Process(config, old(Current()), input);
              Current() == state && extended == output + more
    {
      extended := output;
      if Rejection(config, |input|).Err? {
        return Err(Rejection(config, |input|).error), extended;
      }
      bufferedSamples := bufferedSamples + input;
      extended := WriteAvailable(extended);
      DiscardConsumedFrames();
      r := Ok(());
    }
  }

  class FixedFrameAudioResampler {
    const resampler: StreamingLinearAudioResampler
    const outputSamples: nat
    var pendingSamples: seq<real>

    constructor (config: Config, outputFrames: nat)
      requires PacketSize(config, outputFrames).Ok?
      ensures Valid() && fresh(resampler) && resampler.config == config
      ensures outputSamples == outputFrames * config.channels
      ensures Current() == PacketState(FRESH, [])
    {
      outputSamples := PacketSize(config, outputFrames).value;
      pendingSamples := [];
      resampler := new StreamingLinearAudioResampler(config);
    }

    ghost predicate Valid() {
      resampler.config.Usable() && outputSamples > 0
    }

    function Current(): PacketState
      reads this, resampler
    {
      PacketState(resampler.Current(), pendingSamples)
    }

    /** Resamples `input` and returns the packets handed to the callback, in order. */
    method ProcessWith(input: seq<real>) returns (r: Result<()>, packets: seq<seq<real>>)
      requires Valid()
      modifies this, resampler
      ensures r.Ok? <==> Accepts(resampler.config, input)
      ensures r.Err? ==> r.error == Rejection(resampler.config, |input|).error
      ensures (Current(), packets)
           == ProcessPackets(resampler.config, outputSamples, old(Current()), input)
    {
      packets := [];
      ghost var before := Current();
      r, pendingSamples := resampler.ProcessInto(input, pendingSamples);
      if r.Err? {
        assert pendingSamples == before.pending;
        return r, packets;
      }
      packets, pendingSamples := CutPackets(pendingSamples, outputSamples);
    }
  }
}
