/**
 The square wave of examples/audio-probe/audio-probe.c and examples/popular-apps/build-y4m-fixture.py: a
 32-bit phase accumulator whose top bit is the sign of the sample.
 */
module Tone {
  import opened Arith

  const WRAP := 0x1_0000_0000
  const HALF := 0x8000_0000

  /** (frequency << 32) / rate, rounded down */
  function PhaseStep(frequency: nat, rate: nat): nat
    requires 0 < rate
  {
    frequency * WRAP / rate
  }

  /** The accumulator after n samples. */
  function Phase(step: nat, n: nat): nat {
    n * step % WRAP
  }

  predicate High(step: nat, n: nat) {
    HALF <= Phase(step, n)
  }

  function Sample(step: nat, level: int, n: nat): int {
    if High(step, n) then level else -level
  }

  lemma PhaseAdvances(step: nat, n: nat)
    ensures (Phase(step, n) + step) % WRAP == Phase(step, n + 1)
  {
    AddReduced(n * step, step, WRAP);
    assert (n + 1) * step == n * step + step;
  }

  /** The wave has the samples of the accumulator, twice each for the two channels. */
  ghost predicate IsWave(wave: seq<int>, step: nat, level: int, frames: nat) {
    && |wave| == 2 * frames
    && forall n :: 0 <= n < frames ==> wave[2 * n] == wave[2 * n + 1] == Sample(step, level, n)
  }

  /** The C loops: the samples of one chunk at a time, in a buffer that is written out and used again. */
  method PlayTone(chunks: nat, chunkFrames: nat, step: nat, level: int) returns (written: seq<int>, framesWritten: nat)
    ensures framesWritten == chunks * chunkFrames && IsWave(written, step, level, framesWritten)
  {
    hide Sample;
    hide Phase;
    hide IsWave;
    var samples := new int[2 * chunkFrames];
    var phase := 0;
    framesWritten := 0;
    written := [];
    WaveStarts(step, level);
    for chunk := 0 to chunks
      invariant framesWritten == chunk * chunkFrames && phase == Phase(step, framesWritten)
      invariant IsWave(written, step, level, framesWritten)
    {
      for frame := 0 to chunkFrames
        invariant phase == Phase(step, framesWritten + frame)
        invariant forall n :: 0 <= n < frame ==>
                    samples[2 * n] == samples[2 * n + 1] == Sample(step, level, framesWritten + n)
      {
        var sample := SampleOf(phase, level, step, framesWritten + frame);
        PhaseAdvances(step, framesWritten + frame);
        phase := (phase + step) % WRAP;
        samples[frame * 2] := sample;
        samples[frame * 2 + 1] := sample;
      }
      WaveExtends(written, samples[..], step, level, framesWritten, chunkFrames);
      written := written + samples[..];
      OneMoreChunk(chunk, chunkFrames);
      framesWritten := framesWritten + chunkFrames;
    }
  }

  lemma WaveStarts(step: nat, level: int)
    ensures Phase(step, 0) == 0 && IsWave([], step, level, 0)
  {
  }

  lemma OneMoreChunk(chunk: nat, frames: nat)
    ensures (chunk + 1) * frames == chunk * frames + frames
  {
  }

  method SampleOf(phase: nat, level: int, ghost step: nat, ghost n: nat) returns (sample: int)
    requires phase == Phase(step, n)
    ensures sample == Sample(step, level, n)
  {
    sample := if phase / HALF % 2 == 1 then level else -level;
  }

  lemma WaveExtends(written: seq<int>, chunk: seq<int>, step: nat, level: int, frames: nat, more: nat)
    requires IsWave(written, step, level, frames) && |chunk| == 2 * more
    requires forall n :: 0 <= n < more ==> chunk[2 * n] == chunk[2 * n + 1] == Sample(step, level, frames + n)
    ensures IsWave(written + chunk, step, level, frames + more)
  {
    hide Sample;
    var all := written + chunk;
    forall n | 0 <= n < frames + more ensures all[2 * n] == all[2 * n + 1] == Sample(step, level, n) {
      if n < frames {
        assert all[2 * n] == written[2 * n] && all[2 * n + 1] == written[2 * n + 1];
      } else {
        assert all[2 * n] == chunk[2 * (n - frames)] && all[2 * n + 1] == chunk[2 * (n - frames) + 1];
      }
    }
  }

  /** The Python loop: one growing buffer. */
  method RenderTone(frames: nat, step: nat, level: int) returns (samples: seq<int>)
    ensures IsWave(samples, step, level, frames)
  {
    hide Sample;
    var phase := 0;
    samples := [];
    for n := 0 to frames
      invariant phase == Phase(step, n) && IsWave(samples, step, level, n)
    {
      var sample := SampleOf(phase, level, step, n);
      PhaseAdvances(step, n);
      phase := (phase + step) % WRAP;
      WaveExtends(samples, [sample, sample], step, level, n, 1);
      samples := samples + [sample, sample];
    }
  }

  // Runs of constant sign.

  /** How many half cycles are over after n samples. */
  function HalfCycles(step: nat, n: nat): nat {
    n * step / HALF
  }

  lemma HighIsOdd(step: nat, n: nat)
    ensures High(step, n) <==> HalfCycles(step, n) % 2 == 1
  {
    var x := n * step;
    assert x == x / WRAP * WRAP + x % WRAP;
    if HALF <= x % WRAP {
      DivModUnique(x, HALF, x / WRAP * 2 + 1, x % WRAP - HALF);
    } else {
      DivModUnique(x, HALF, x / WRAP * 2, x % WRAP);
    }
  }

  /** The k-th half cycle, counted from zero, is low if k is even and high if k is odd. */
  lemma SampleSign(step: nat, level: int, n: nat, k: nat)
    requires k * HALF <= n * step < k * HALF + HALF
    ensures Sample(step, level, n) == if k % 2 == 0 then -level else level
  {
    HighIsOdd(step, n);
    DivModUnique(n * step, HALF, k, n * step - k * HALF);
  }

  lemma HalfCycleStep(step: nat, n: nat)
    requires step <= HALF
    ensures HalfCycles(step, n) <= HalfCycles(step, n + 1) <= HalfCycles(step, n) + 1
  {
    assert (n + 1) * step == n * step + step;
  }

  /** Samples a up to b have one sign, and the sign changes on both sides; the start of the wave counts as a change. */
  ghost predicate CompleteRun(step: nat, a: nat, b: nat) {
    && a < b
    && (forall n :: a <= n < b ==> High(step, n) == High(step, a))
    && (a > 0 ==> High(step, a - 1) != High(step, a))
    && High(step, b) != High(step, a)
  }

  lemma {:induction false} SameHalfCycle(step: nat, a: nat, n: nat)
    requires step <= HALF && a <= n && forall i :: a <= i <= n ==> High(step, i) == High(step, a)
    ensures HalfCycles(step, n) == HalfCycles(step, a)
    decreases n
  {
    hide High;
    hide HalfCycles;
    if a < n {
      SameHalfCycle(step, a, n - 1);
      HalfCycleStep(step, n - 1);
      HighIsOdd(step, n - 1);
      HighIsOdd(step, n);
      assert High(step, n - 1) == High(step, n);
    }
  }

  /** The sign changes exactly with the half cycle. */
  lemma SignChange(step: nat, n: nat)
    requires step <= HALF && High(step, n) != High(step, n + 1)
    ensures HalfCycles(step, n + 1) == HalfCycles(step, n) + 1
  {
    hide High;
    hide HalfCycles;
    HalfCycleStep(step, n);
    HighIsOdd(step, n);
    HighIsOdd(step, n + 1);
  }

  lemma Bracket(step: nat, n: nat, k: nat)
    ensures HalfCycles(step, n) == k ==> k * HALF <= n * step < k * HALF + HALF
  {
  }

  lemma RunBounds(step: nat, a: nat, b: nat, k: nat)
    requires 0 < step && a < b
    requires k * HALF <= a * step < k * HALF + step
    requires (b - 1) * step < k * HALF + HALF <= b * step
    ensures HALF / step <= b - a <= (HALF + step - 1) / step
  {
    var length := b - a;
    assert b * step == a * step + length * step;
    assert (b - 1) * step == b * step - step;
    assert HALF - step < length * step < HALF + step;
    var low, high := HALF / step, (HALF + step - 1) / step;
    if length < low {
      MulGap(length, low, step);
    }
    if high < length {
      MulGap(high, length, step);
    }
  }

  /** Every complete run is the floor or the ceiling of half a period. */
  lemma RunLength(step: nat, a: nat, b: nat)
    requires 0 < step <= HALF && CompleteRun(step, a, b)
    ensures HALF / step <= b - a <= (HALF + step - 1) / step
  {
    hide High;
    hide HalfCycles;
    var k := HalfCycles(step, a);
    SameHalfCycle(step, a, b - 1);
    SignChange(step, b - 1);
    Bracket(step, a, k);
    Bracket(step, b - 1, k);
    Bracket(step, b, k + 1);
    if a == 0 {
      StartsAtZero(step);
    } else {
      SignChange(step, a - 1);
      Bracket(step, a - 1, k - 1);
      assert a * step == (a - 1) * step + step;
    }
    RunBounds(step, a, b, k);
  }

  lemma StartsAtZero(step: nat)
    ensures HalfCycles(step, 0) == 0
  {
  }

  // Drift.

  /** The rounded step loses less than one cycle in the first 2 to the 32 samples. */
  lemma Drift(frequency: nat, rate: nat, n: nat)
    requires 0 < rate && n < WRAP
    ensures var cycles, ideal := n * PhaseStep(frequency, rate) / WRAP, frequency * n / rate;
            ideal - 1 <= cycles <= ideal
  {
    var step := PhaseStep(frequency, rate);
    var cycles, ideal := n * step / WRAP, frequency * n / rate;
    StepBracket(frequency, rate);
    NotAhead(frequency, rate, n, step, cycles);
    NotBehind(frequency, rate, n, step, ideal);
  }

  lemma StepBracket(frequency: nat, rate: nat)
    requires 0 < rate
    ensures var step := PhaseStep(frequency, rate);
            step * rate <= frequency * WRAP < step * rate + rate
  {
  }

  lemma NotAhead(frequency: nat, rate: nat, n: nat, step: nat, cycles: nat)
    requires 0 < rate && step * rate <= frequency * WRAP && cycles == n * step / WRAP
    ensures cycles <= frequency * n / rate
  {
    Scale(cycles * WRAP, n * step, rate);
    Scale(step * rate, frequency * WRAP, n);
    assert n * step * rate == n * (step * rate);
    assert cycles * WRAP * rate == WRAP * (cycles * rate);
    assert n * (frequency * WRAP) == WRAP * (frequency * n);
    assert cycles * rate <= frequency * n;
    AtMostQuotient(cycles, frequency * n, rate);
  }

  lemma Scale(a: nat, b: nat, c: nat)
    requires a <= b
    ensures a * c <= b * c && c * a <= c * b
  {
  }

  lemma AtMostQuotient(q: nat, x: nat, d: nat)
    requires 0 < d && q * d <= x
    ensures q <= x / d
  {
    if x / d < q {
      MulGap(x / d, q, d);
    }
  }

  lemma NotBehind(frequency: nat, rate: nat, n: nat, step: nat, ideal: nat)
    requires 0 < rate && frequency * WRAP < step * rate + rate && ideal == frequency * n / rate && n < WRAP
    ensures ideal - 1 <= n * step / WRAP
  {
    if ideal > 0 {
      Scale(ideal * rate, frequency * n, WRAP);
      assert ideal * rate * WRAP == rate * (ideal * WRAP);
      assert frequency * n * WRAP == n * (frequency * WRAP);
      assert n > 0;
      Scale(frequency * WRAP, step * rate + rate, n);
      assert n * (step * rate + rate) == rate * (n * step + n);
      assert rate * (ideal * WRAP) <= rate * (n * step + n);
      CancelFactor(ideal * WRAP, n * step + n, rate);
      assert (ideal - 1) * WRAP <= n * step;
      AtMostQuotient(ideal - 1, n * step, WRAP);
    }
  }

  lemma CancelFactor(a: nat, b: nat, c: nat)
    requires 0 < c && c * a <= c * b
    ensures a <= b
  {
    if b < a {
      MulGap(b, a, c);
    }
  }

  /** The probe's tone: 440 Hz at 48 kHz has runs of 54 or 55 samples. */
  lemma ProbeRuns(a: nat, b: nat)
    requires CompleteRun(PhaseStep(440, 48_000), a, b)
    ensures PhaseStep(440, 48_000) == 39_370_533
    ensures 54 <= b - a <= 55
  {
    assert PhaseStep(440, 48_000) == 39_370_533;
    RunLength(39_370_533, a, b);
  }
}
