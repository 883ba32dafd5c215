/** The sample format of the stream and the white-noise sample source. */
module Samples {

  /** BUFFER_SIZE: samples per producer batch, and the frame count the consumer starts from. */
  const BufferSize: nat := 16384

  /** Slots of the ring buffer: four batches (BUFFER_SIZE * 4). */
  const RingSize: nat := 4 * BufferSize

  /** sizeof(int16_t). */
  const SampleBytes: nat := 2

  /**
   * INT_MAX on the target; std::rand never returns more (RAND_MAX <= INT_MAX).  A draw may
   * be anything up to it: where RAND_MAX is as small as 32767, only the draws below it occur.
   */
  const IntMax: int := 0x7fff_ffff

  /** A signed 16-bit sample, the value of an int16_t. */
  type Sample = x: int | -0x8000 <= x < 0x8000

  /** A value that one call of std::rand() can return. */
  predicate IsDraw(d: int) {
    0 <= d <= IntMax
  }

  /** All values of a sequence of std::rand() results are possible results. */
  predicate AreDraws(draws: seq<int>) {
    forall i | 0 <= i < |draws| :: IsDraw(draws[i])
  }

  /**
   * The sample computed from one draw: (draw % 65536) - 32768.  The draw is never
   * negative, so C's truncating remainder and Dafny's Euclidean one agree here.
   */
  function NoiseSample(draw: int): (s: int)
    requires IsDraw(draw)
    ensures -0x8000 <= s < 0x8000
  {
    draw % 0x1_0000 - 0x8000
  }

  /**
   * Every 16-bit value is the sample of some draw below 65536, so the generator can produce
   * all of them when RAND_MAX is at least 65535 (as with glibc, where it is INT_MAX).
   */
  lemma NoiseSampleCoversRange(v: Sample)
    ensures exists d :: IsDraw(d) && d < 0x1_0000 && NoiseSample(d) == v
  {
    assert NoiseSample(v + 0x8000) == v;
  }

  /** Two draws give the same sample exactly when they agree in their low 16 bits. */
  lemma NoiseSampleDependsOnLowBits(d: int, e: int)
    requires IsDraw(d) && IsDraw(e)
    ensures NoiseSample(d) == NoiseSample(e) <==> d % 0x1_0000 == e % 0x1_0000
  {
  }

  /** The samples one generator call writes, one per draw, in the order of the rand() calls. */
  function NoiseBatch(draws: seq<int>): (b: seq<Sample>)
    requires AreDraws(draws)
  {
    seq(|draws|, i requires 0 <= i < |draws| => NoiseSample(draws[i]))
  }

  /**
   * generate_white_noise: overwrites buffer[0..size) with one noise sample per draw and
   * leaves every slot from size on as it was.  The slots are always the first ones of the
   * buffer, whatever position a caller may consider current.
   */
  method GenerateWhiteNoise(buffer: array<Sample>, size: nat, draws: seq<int>)
    requires size <= buffer.Length
    requires |draws| == size && AreDraws(draws)
    modifies buffer
    ensures buffer[..size] == NoiseBatch(draws)
    ensures buffer[size..] == old(buffer[size..])
  {
    for i := 0 to size
      invariant forall k | 0 <= k < i :: buffer[k] == NoiseSample(draws[k])
      invariant forall k | i <= k < buffer.Length :: buffer[k] == old(buffer[k])
    {
      buffer[i] := NoiseSample(draws[i]);
    }
  }
}
