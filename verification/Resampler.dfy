/**
 The microphone resampler: 48 kHz blocks of 768 samples in, 44.1 kHz blocks of 256
 samples out, with one carried sample, a phase accumulator and a fixed queue.
 */
module Resampler {
  import opened Sequences

  const INPUT_FRAMES: int := 768
  const OUTPUT_FRAMES: int := 256
  const INPUT_RATE: int := 48000
  const OUTPUT_RATE: int := 44100
  const QUEUE_SIZE: int := 2048

  type Sample = x: int | -0x8000 <= x < 0x8000

  // One interpolation over the whole stream

  /** The stream one sample late, its first sample doubled. */
  function Delayed(input: seq<Sample>): seq<Sample>
    requires input != []
  {
    [input[0]] + input
  }

  /** a + (b - a) * fraction / 44100 with C's truncating division. */
  function Mix(a: int, b: int, fraction: int): int
    requires 0 <= fraction < OUTPUT_RATE
  {
    var product := (b - a) * fraction;
    a + if product >= 0 then product / OUTPUT_RATE else -((-product) / OUTPUT_RATE)
  }

  /** The k-th output: the delayed stream at position k * 48000 / 44100. */
  function Output(d: seq<Sample>, k: nat): Sample
    requires k * INPUT_RATE < (|d| - 1) * OUTPUT_RATE
  {
    var source := k * INPUT_RATE / OUTPUT_RATE;
    MixIsBetween(d[source], d[source + 1], k * INPUT_RATE % OUTPUT_RATE);
    Mix(d[source], d[source + 1], k * INPUT_RATE % OUTPUT_RATE)
  }

  /** The outputs that n input samples determine. */
  predicate Determined(n: nat, count: nat) {
    count > 0 ==> (count - 1) * INPUT_RATE < n * OUTPUT_RATE
  }

  function Outputs(input: seq<Sample>, count: nat): (r: seq<Sample>)
    requires Determined(|input|, count)
  {
    Tabulate((k: nat) => if k * INPUT_RATE < |input| * OUTPUT_RATE then Output(Delayed(input), k) else 0, count)
  }

  function Tabulate(f: nat -> Sample, count: nat): (r: seq<Sample>)
    ensures |r| == count
  {
    seq(count, k requires 0 <= k => f(k))
  }

  lemma TabulateSnoc(f: nat -> Sample, count: nat)
    ensures Tabulate(f, count + 1) == Tabulate(f, count) + [f(count)]
  {
  }

  /** An interpolated value lies between its neighbours, so the cast to int16_t is exact. */
  lemma MixIsBetween(a: int, b: int, fraction: int)
    requires 0 <= fraction < OUTPUT_RATE
    ensures if a <= b then a <= Mix(a, b, fraction) <= b else b <= Mix(a, b, fraction) <= a
  {
    var gap := if a <= b then b - a else a - b;
    assert 0 <= gap * fraction <= gap * OUTPUT_RATE;
    assert a > b ==> (b - a) * fraction == -(gap * fraction);
    Quotient(gap * fraction, gap);
  }

  lemma Quotient(x: int, gap: int)
    requires 0 <= x <= gap * OUTPUT_RATE
    ensures 0 <= x / OUTPUT_RATE <= gap
  {
  }

  /** r is the quotient p / 44100, truncated toward zero. */
  predicate Truncated(r: int, p: int) {
    if p >= 0 then 44100 * r <= p < 44100 * (r + 1) else 44100 * (r - 1) < p <= 44100 * r
  }

  lemma MixIsTruncated(a: int, b: int, fraction: int)
    requires 0 <= fraction < 44100
    ensures Truncated(Mix(a, b, fraction) - a, (b - a) * fraction)
  {
  }

  /**
   Output k stands at k * 48000 / 44100 of the stream one sample late: its distance from
   the sample before that position is the fraction of the step to the next one, truncated,
   so that it lies between the two.
   */
  lemma OutputIsInterpolated(input: seq<Sample>, count: nat, k: nat)
    requires Determined(|input|, count) && k < count
    ensures var source, fraction, y := k * 48000 / 44100, k * 48000 % 44100, Outputs(input, count)[k];
      && 0 <= source < |input|
      && var a, b := if source == 0 then input[0] else input[source - 1], input[source];
         Truncated(y - a, (b - a) * fraction) && (a <= y <= b || b <= y <= a)
  {
    var d, source := Delayed(input), k * INPUT_RATE / OUTPUT_RATE;
    MixIsBetween(d[source], d[source + 1], k * INPUT_RATE % OUTPUT_RATE);
    MixIsTruncated(d[source], d[source + 1], k * INPUT_RATE % OUTPUT_RATE);
  }

  // Rate

  /** ceil(3528 n / 5): the outputs of n input blocks. */
  function Produced(n: nat): nat {
    (3528 * n + 4) / 5
  }

  /** The phase carried into block n. */
  function PhaseAt(n: nat): (phase: nat)
    ensures phase < INPUT_RATE
  {
    Produced(n) * INPUT_RATE - n * INPUT_FRAMES * OUTPUT_RATE
  }

  /** The output positions that fall in block n are those from Produced(n) up to Produced(n + 1). */
  lemma BlockBoundary(n: nat, k: nat)
    ensures k < Produced(n + 1) <==> k * INPUT_RATE < (n + 1) * INPUT_FRAMES * OUTPUT_RATE
    ensures Produced(n) <= Produced(n + 1) <= Produced(n) + 706
  {
  }

  /** More input does not change the outputs already determined. */
  lemma OutputsAreStable(input: seq<Sample>, more: seq<Sample>, count: nat)
    requires Determined(|input|, count)
    ensures Determined(|input + more|, count) && Outputs(input + more, count) == Outputs(input, count)
  {
  }

  /** The queue takes the next output. */
  lemma Enqueued(done: seq<Sample>, q: seq<Sample>, input: seq<Sample>, k: nat)
    requires Determined(|input|, k) && Determined(|input|, k + 1) && done + q == Outputs(input, k)
    ensures done + (q + [Output(Delayed(input), k)]) == Outputs(input, k + 1)
  {
    TabulateSnoc((i: nat) => if i * INPUT_RATE < |input| * OUTPUT_RATE then Output(Delayed(input), i) else 0, k);
  }

  /** The front of the queue becomes a delivered block. */
  lemma Dequeued(blocks: seq<seq<Sample>>, q: seq<Sample>)
    requires |q| >= OUTPUT_FRAMES
    ensures Flatten(blocks + [q[..OUTPUT_FRAMES]]) + q[OUTPUT_FRAMES..] == Flatten(blocks) + q
  {
    FlattenSnoc(blocks, q[..OUTPUT_FRAMES]);
  }

  // The thread's state and one turn of its loop

  class Microphone {
    const vitaInput: array<Sample>
    const resampleInput: array<Sample>
    const queue: array<Sample>
    var queued: nat
    var phase: nat
    var havePrevious: bool
    ghost var input: seq<Sample>
    ghost var blocks: nat
    var delivered: seq<seq<Sample>>

    /** Everything delivered so far followed by the queue is the resampled stream. */
    ghost predicate Conserves(count: nat)
      reads this, queue
    {
      && queued <= queue.Length
      && Determined(|input|, count)
      && Flatten(delivered) + queue[..queued] == Outputs(input, count)
      && forall i | 0 <= i < |delivered| :: |delivered[i]| == OUTPUT_FRAMES
    }

    ghost predicate Buffers() {
      && vitaInput.Length == INPUT_FRAMES && resampleInput.Length == INPUT_FRAMES + 1 && queue.Length == QUEUE_SIZE
      && vitaInput != resampleInput && vitaInput != queue && resampleInput != queue
    }

    ghost predicate Valid()
      reads this, resampleInput, queue
    {
      && Buffers()
      && |input| == blocks * INPUT_FRAMES
      && havePrevious == (input != [])
      && (input != [] ==> resampleInput[0] == input[|input| - 1])
      && phase == PhaseAt(blocks)
      && queued < OUTPUT_FRAMES
      && Conserves(Produced(blocks))
    }

    constructor ()
      ensures Valid() && fresh(vitaInput) && fresh(resampleInput) && fresh(queue)
      ensures input == [] && blocks == 0 && delivered == []
    {
      vitaInput := new Sample[INPUT_FRAMES](_ => 0);
      resampleInput := new Sample[INPUT_FRAMES + 1](_ => 0);
      queue := new Sample[QUEUE_SIZE](_ => 0);
      queued, phase, havePrevious := 0, 0, false;
      input, blocks, delivered := [], 0, [];
    }

    /** One turn of the loop: capture a block, carry a sample, resample, deliver. */
    method ProcessBlock(captured: seq<Sample>)
      requires Valid() && |captured| == INPUT_FRAMES
      modifies this, vitaInput, resampleInput, queue
      ensures Valid() && input == old(input) + captured && blocks == old(blocks) + 1
      ensures old(delivered) <= delivered
    {
      ghost var n := blocks;
      forall i | 0 <= i < INPUT_FRAMES {
        vitaInput[i] := captured[i];
      }
      assert vitaInput[..] == captured;
      LoadBlock(n, captured);
      assert input[|input| - 1] == captured[INPUT_FRAMES - 1];
      UseBlock(n);
    }

    /** The loaded block is resampled, its last sample is carried over, and full blocks are delivered. */
    method UseBlock(ghost n: nat)
      requires Buffers() && blocks == n + 1 && |input| == blocks * INPUT_FRAMES && havePrevious
      requires resampleInput[..] == Delayed(input)[n * INPUT_FRAMES..]
      requires vitaInput[INPUT_FRAMES - 1] == input[|input| - 1]
      requires phase == PhaseAt(n) && queued < OUTPUT_FRAMES && Conserves(Produced(n))
      modifies this`queued, this`phase, this`delivered, resampleInput, queue
      ensures Valid() && old(delivered) <= delivered
    {
      Resample(n);
      resampleInput[0] := vitaInput[INPUT_FRAMES - 1];
      Deliver(Produced(n + 1));
    }

    /** The carried sample followed by the block is the block's stretch of the delayed stream. */
    method LoadBlock(ghost n: nat, ghost captured: seq<Sample>)
      requires Valid() && n == blocks && vitaInput[..] == captured
      modifies this`havePrevious, this`input, this`blocks, resampleInput
      ensures havePrevious && input == old(input) + captured && blocks == n + 1
      ensures resampleInput[..] == Delayed(input)[n * INPUT_FRAMES..]
      ensures Conserves(Produced(n))
    {
      if !havePrevious {
        resampleInput[0] := vitaInput[0];
        havePrevious := true;
      }
      forall i | 0 <= i < INPUT_FRAMES {
        resampleInput[1 + i] := vitaInput[i];
      }
      OutputsAreStable(input, captured, Produced(n));
      input, blocks := input + captured, n + 1;
      DelayedSuffix(old(input), captured);
      assert resampleInput[..] == [resampleInput[0]] + captured;
    }

    /** The resampling loop over one block, and the phase it leaves. */
    method Resample(ghost n: nat)
      requires Buffers() && |input| == (n + 1) * INPUT_FRAMES
      requires resampleInput[..] == Delayed(input)[n * INPUT_FRAMES..]
      requires phase == PhaseAt(n) && queued < OUTPUT_FRAMES && Conserves(Produced(n))
      modifies this`queued, this`phase, queue
      ensures phase == PhaseAt(n + 1)
      ensures queued < OUTPUT_FRAMES + 706 && Conserves(Produced(n + 1))
    {
      ghost var k := Produced(n);
      BlockBoundary(n, k);
      while phase < INPUT_FRAMES * OUTPUT_RATE && queued < QUEUE_SIZE
        invariant Produced(n) <= k <= Produced(n + 1)
        invariant phase == k * INPUT_RATE - n * INPUT_FRAMES * OUTPUT_RATE
        invariant queued == old(queued) + k - Produced(n)
        invariant Conserves(k)
      {
        BlockBoundary(n, k);
        Enqueue(n, k);
        phase := phase + INPUT_RATE;
        k := k + 1;
      }
      BlockBoundary(n, k);
      phase := phase - INPUT_FRAMES * OUTPUT_RATE;
    }

    /** The next output goes to the end of the queue. */
    method Enqueue(ghost n: nat, ghost k: nat)
      requires Buffers() && |input| == (n + 1) * INPUT_FRAMES && queued < QUEUE_SIZE && Conserves(k)
      requires resampleInput[..] == Delayed(input)[n * INPUT_FRAMES..]
      requires phase == k * INPUT_RATE - n * INPUT_FRAMES * OUTPUT_RATE && phase < INPUT_FRAMES * OUTPUT_RATE
      modifies this`queued, queue
      ensures queued == old(queued) + 1 && Conserves(k + 1)
    {
      var value := NextSample(n, k);
      Enqueued(Flatten(delivered), queue[..queued], input, k);
      ghost var before := queue[..queued];
      queue[queued] := value;
      queued := queued + 1;
      assert queue[..queued] == before + [value];
    }

    /** Interpolate between the two samples around the phase. */
    method NextSample(ghost n: nat, ghost k: nat) returns (value: Sample)
      requires Buffers() && |input| == (n + 1) * INPUT_FRAMES
      requires resampleInput[..] == Delayed(input)[n * INPUT_FRAMES..]
      requires phase == k * INPUT_RATE - n * INPUT_FRAMES * OUTPUT_RATE && phase < INPUT_FRAMES * OUTPUT_RATE
      ensures k * INPUT_RATE < |input| * OUTPUT_RATE && value == Output(Delayed(input), k)
    {
      var source := phase / OUTPUT_RATE;
      var fraction := phase % OUTPUT_RATE;
      var a := resampleInput[source];
      var b := resampleInput[source + 1];
      BlockPosition(n, k, phase);
      ghost var d := Delayed(input);
      assert a == d[n * INPUT_FRAMES..][source] && b == d[n * INPUT_FRAMES..][source + 1];
      MixIsBetween(a, b, fraction);
      return Mix(a, b, fraction);
    }

    /** Hand over whole blocks from the front of the queue. */
    method Deliver(ghost count: nat)
      requires Conserves(count)
      modifies this`queued, this`delivered, queue
      ensures queued < OUTPUT_FRAMES && Conserves(count)
      ensures old(delivered) <= delivered
    {
      while queued >= OUTPUT_FRAMES
        invariant Conserves(count) && old(delivered) <= delivered
      {
        Dequeued(delivered, queue[..queued]);
        ghost var before := queue[..queued];
        delivered := delivered + [queue[..OUTPUT_FRAMES]];
        forall i | 0 <= i < queued - OUTPUT_FRAMES {
          queue[i] := queue[i + OUTPUT_FRAMES];
        }
        queued := queued - OUTPUT_FRAMES;
        assert queue[..queued] == before[OUTPUT_FRAMES..];
        assert before[..OUTPUT_FRAMES] == delivered[|delivered| - 1];
      }
    }
  }

  lemma DelayedSuffix(input: seq<Sample>, block: seq<Sample>)
    requires block != []
    ensures Delayed(input + block)[|input|..] == [if input == [] then block[0] else input[|input| - 1]] + block
  {
  }

  /** The block-local position of output k is its position in the whole stream. */
  lemma BlockPosition(n: nat, k: nat, phase: nat)
    requires phase == k * INPUT_RATE - n * INPUT_FRAMES * OUTPUT_RATE
    ensures k * INPUT_RATE / OUTPUT_RATE == n * INPUT_FRAMES + phase / OUTPUT_RATE
    ensures k * INPUT_RATE % OUTPUT_RATE == phase % OUTPUT_RATE
  {
  }

  /**
   The whole thread on any number of blocks: what was delivered, in blocks of 256, and
   what is still queued make up exactly the whole-stream interpolation.
   */
  method Capture(blocks: seq<seq<Sample>>) returns (delivered: seq<seq<Sample>>, rest: seq<Sample>)
    requires forall i | 0 <= i < |blocks| :: |blocks[i]| == 768
    ensures Determined(|Flatten(blocks)|, Produced(|blocks|))
    ensures Flatten(delivered) + rest == Outputs(Flatten(blocks), Produced(|blocks|))
    ensures |rest| < 256 && forall i | 0 <= i < |delivered| :: |delivered[i]| == 256
  {
    var mic := new Microphone();
    for n := 0 to |blocks|
      invariant mic.Valid() && mic.blocks == n && mic.input == Flatten(blocks[..n])
      invariant fresh(mic) && fresh(mic.vitaInput) && fresh(mic.resampleInput) && fresh(mic.queue)
    {
      mic.ProcessBlock(blocks[n]);
      FlattenSnoc(blocks[..n], blocks[n]);
      assert blocks[..n + 1] == blocks[..n] + [blocks[n]];
    }
    assert blocks[..|blocks|] == blocks;
    return mic.delivered, mic.queue[..mic.queued];
  }
}
