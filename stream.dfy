/**
 * The shared ring buffer of noise2.cpp with its two cursors, the producer step that refills
 * it, and the consumer step that copies one period out of it into the mapped area.
 */
module Stream {
  import opened Samples
  import opened Cursors

  /** The n samples a consumer step reads from the ring s, starting at slot start and wrapping. */
  function Window(s: seq<Sample>, start: nat, n: nat): seq<Sample>
    requires |s| == RingSize
  {
    seq(n, i => s[(start + i) % RingSize])
  }

  /** Two consecutive reads see consecutive samples of the ring: the reads follow each other. */
  lemma {:induction false} WindowsConcatenate(s: seq<Sample>, start: nat, a: nat, b: nat)
    requires |s| == RingSize
    ensures Window(s, start, a) + Window(s, (start + a) % RingSize, b) == Window(s, start, a + b)
  {
    var left, right, whole := Window(s, start, a), Window(s, (start + a) % RingSize, b), Window(s, start, a + b);
    forall i | a <= i < a + b
      ensures right[i - a] == whole[i]
    {
      RingSum(start + a, i - a);
    }
    assert left + right == whole;
  }

  /** A read of a whole ring's worth of samples visits every slot once, in ring order from start. */
  lemma FullWindowIsRotation(s: seq<Sample>, start: nat)
    requires |s| == RingSize && start < RingSize
    ensures Window(s, start, RingSize) == s[start..] + s[..start]
  {
    var w, r := Window(s, start, RingSize), s[start..] + s[..start];
    forall i | 0 <= i < RingSize
      ensures w[i] == r[i]
    {
      if start + i >= RingSize {
        ShiftByRingMultiple(start + i, -1);
      }
    }
  }

  // ---------------------------------------------------------------------------------
  // The bytes of the mapped period buffer, which memset clears.  Samples are stored as
  // S16_LE: the low byte of element k is byte 2 * k, its high byte is byte 2 * k + 1.

  /** The two's complement bit pattern of a sample. */
  function Bits(v: Sample): (u: nat)
    ensures u < 0x1_0000
  {
    v % 0x1_0000
  }

  /** The sample whose bit pattern is u. */
  function FromBits(u: nat): (v: Sample)
    requires u < 0x1_0000
    ensures Bits(v) == u
  {
    if u < 0x8000 then u else u - 0x1_0000
  }

  /** Value of element k after the bytes [lo, hi) of the buffer have been set to zero. */
  function ClearBytes(v: Sample, k: nat, lo: nat, hi: nat): (r: Sample)
    ensures lo <= 2 * k && 2 * k + 2 <= hi ==> r == 0
    ensures 2 * k + 2 <= lo || hi <= 2 * k ==> r == v
    ensures lo <= 2 * k < hi ==> Bits(r) % 0x100 == 0
    ensures lo <= 2 * k + 1 < hi ==> Bits(r) / 0x100 == 0
    ensures !(lo <= 2 * k < hi) ==> Bits(r) % 0x100 == Bits(v) % 0x100
    ensures !(lo <= 2 * k + 1 < hi) ==> Bits(r) / 0x100 == Bits(v) / 0x100
  {
    var u := Bits(v);
    var low := if lo <= 2 * k < hi then 0 else u % 0x100;
    var high := if lo <= 2 * k + 1 < hi then 0 else u / 0x100;
    FromBits(high * 0x100 + low)
  }

  /** memset(buf + ..., 0, count) on the bytes [offset, offset + count) of buf. */
  method Memset(buf: array<Sample>, offset: nat, count: nat)
    requires offset + count <= SampleBytes * buf.Length
    modifies buf
    ensures forall k | 0 <= k < buf.Length :: buf[k] == ClearBytes(old(buf[k]), k, offset, offset + count)
  {
    forall k | 0 <= k < buf.Length {
      buf[k] := ClearBytes(buf[k], k, offset, offset + count);
    }
  }

  /**
   * The underrun branch of audio_callback: when bytes_available is below bytes_to_write,
   * zero silence_bytes bytes starting at element bytes_available / 2.  The cleared bytes
   * lie within the first frames elements; below element bytes_available / 2 nothing
   * changes, and from there to the end of the period every whole element becomes zero.
   */
  method FillSilence(buf: array<Sample>, frames: SizeT, available: SizeT)
    requires frames <= buf.Length
    modifies buf
    ensures available < BytesToWrite(frames) ==>
              forall k | 0 <= k < buf.Length ::
                buf[k] == ClearBytes(old(buf[k]), k, SilenceStart(available), SilenceEnd(frames, available))
    ensures available >= BytesToWrite(frames) ==> buf[..] == old(buf[..])
    ensures buf[frames..] == old(buf[frames..])
    ensures forall k | 0 <= k < available / SampleBytes && k < buf.Length :: buf[k] == old(buf[k])
    ensures available < BytesToWrite(frames) && frames < SizeModulus / SampleBytes ==>
              forall k | available / SampleBytes <= k < frames - available % SampleBytes :: buf[k] == 0
  {
    var bytesToWrite := BytesToWrite(frames);
    if available < bytesToWrite {
      var silenceBytes := bytesToWrite - available;
      SilenceWithinPeriod(frames, available);
      Memset(buf, SampleBytes * (available / SampleBytes), silenceBytes);
    }
  }

  /**
   * The state shared by the producer and the consumer: ring_buffer, write_pos and read_pos.
   * The keep_running flag is not a field: each loop receives the values it observes.
   */
  class Stream {
    /** ring_buffer: 4 * BUFFER_SIZE samples, allocated once. */
    const ring: array<Sample>
    /** write_pos: advanced by the producer step only. */
    var writePos: SizeT
    /** read_pos: advanced by the consumer step only. */
    var readPos: SizeT

    /**
     * Both cursors stay inside the ring (they are always stored reduced modulo its size),
     * and the write cursor is always on a batch boundary.
     */
    ghost predicate Valid()
      reads this
    {
      && ring.Length == RingSize
      && writePos < RingSize && writePos % BufferSize == 0
      && readPos < RingSize
    }

    /** The globals at program start: a zeroed vector and both cursors at 0. */
    constructor ()
      ensures Valid() && fresh(ring)
      ensures writePos == 0 && readPos == 0
      ensures forall i | 0 <= i < ring.Length :: ring[i] == 0
    {
      ring := new Sample[RingSize](_ => 0);
      writePos, readPos := 0, 0;
    }

    /**
     * One tick of the producer loop in main: refill the first BUFFER_SIZE slots of the ring
     * from draws, whatever write_pos is (they are the batch at write_pos only when write_pos
     * is 0), then advance write_pos by BUFFER_SIZE.
     */
    method ProduceBatch(draws: seq<int>)
      requires Valid()
      requires |draws| == BufferSize && AreDraws(draws)
      modifies this`writePos, ring
      ensures Valid()
      ensures writePos == (old(writePos) + BufferSize) % RingSize
      ensures ring[..BufferSize] == NoiseBatch(draws)
      ensures ring[BufferSize..] == old(ring[BufferSize..])
    {
      GenerateWhiteNoise(ring, BufferSize, draws);
      writePos := Advance(writePos, BufferSize);
      assert writePos % BufferSize == 0 by {
        BatchBoundaryAdvance(old(writePos));
      }
    }

    /**
     * The producer loop of main while keep_running holds for |batches| ticks: write_pos has
     * moved |batches| batches on, the first BUFFER_SIZE slots hold the last batch (or are
     * untouched when there was no tick), the rest of the ring is untouched.
     */
    method RunProducer(batches: seq<seq<int>>)
      requires Valid()
      requires forall j | 0 <= j < |batches| :: |batches[j]| == BufferSize && AreDraws(batches[j])
      modifies this`writePos, ring
      ensures Valid()
      ensures writePos == (old(writePos) + |batches| * BufferSize) % RingSize
      ensures |batches| > 0 ==> ring[..BufferSize] == NoiseBatch(batches[|batches| - 1])
      ensures |batches| == 0 ==> ring[..BufferSize] == old(ring[..BufferSize])
      ensures ring[BufferSize..] == old(ring[BufferSize..])
    {
      var i := 0;
      while i < |batches|
        invariant 0 <= i <= |batches|
        invariant Valid()
        invariant writePos == (old(writePos) + i * BufferSize) % RingSize
        invariant i > 0 ==> ring[..BufferSize] == NoiseBatch(batches[i - 1])
        invariant i == 0 ==> ring[..BufferSize] == old(ring[..BufferSize])
        invariant ring[BufferSize..] == old(ring[BufferSize..])
      {
        ProduceBatch(batches[i]);
        RingSum(old(writePos) + i * BufferSize, BufferSize);
        i := i + 1;
      }
    }

    /**
     * The copy loop of audio_callback: frames samples from read_pos on, read_pos advancing
     * one slot at a time modulo the ring size (so every ring access is inside the ring).
     */
    method CopyPeriod(buf: array<Sample>, frames: SizeT)
      requires Valid() && buf != ring && frames <= buf.Length
      modifies this`readPos, buf
      ensures Valid()
      ensures readPos == (old(readPos) + frames) % RingSize
      ensures buf[..frames] == Window(ring[..], old(readPos), frames)
      ensures buf[frames..] == old(buf[frames..])
    {
      ghost var start := readPos;
      for i := 0 to frames
        invariant readPos < RingSize && readPos == (start + i) % RingSize
        invariant forall k | 0 <= k < i :: buf[k] == ring[(start + k) % RingSize]
        invariant forall k | i <= k < buf.Length :: buf[k] == old(buf[k])
      {
        buf[i] := ring[readPos];
        AdvanceByOne(readPos, start + i);
        readPos := Advance(readPos, 1);
      }
      assert buf[..frames] == Window(ring[..], start, frames);
    }

    /**
     * The body of one audio_callback iteration between mmap_begin and mmap_commit: compute
     * the occupancy, zero-fill the tail of the period when it looks short, then copy frames
     * samples from the ring.  The copy overwrites the whole period, so its final contents
     * are the ring samples from read_pos on, whatever the occupancy was and whether the
     * silence was written.
     */
    method ConsumePeriod(buf: array<Sample>, frames: SizeT) returns (available: SizeT)
      requires Valid() && buf != ring && frames <= buf.Length
      modifies this`readPos, buf
      ensures Valid()
      ensures available == Occupancy(writePos, old(readPos))
      ensures readPos == (old(readPos) + frames) % RingSize
      ensures buf[..frames] == Window(ring[..], old(readPos), frames)
      ensures buf[frames..] == old(buf[frames..])
    {
      available := Occupancy(writePos, readPos);
      FillSilence(buf, frames, available);
      CopyPeriod(buf, frames);
    }
  }

  /** Advancing the slot of position x by one gives the slot of position x + 1. */
  lemma AdvanceByOne(p: SizeT, x: nat)
    requires p == x % RingSize
    ensures Advance(p, 1) == (x + 1) % RingSize
  {
    RingSum(x, 1);
  }

  /** Advancing a batch-aligned cursor by one batch keeps it batch-aligned. */
  lemma BatchBoundaryAdvance(w: SizeT)
    requires w % BufferSize == 0
    ensures Advance(w, BufferSize) % BufferSize == 0
  {
    var a, q := w / 0x4000, (w + 0x4000) / 0x1_0000;
    assert w == a * 0x4000;
    assert Advance(w, BufferSize) == (a + 1 - q * 4) * 0x4000;
  }

  /** write_pos inside the ring and on a batch boundary means one of the four batch starts. */
  lemma WritePosIsBatchStart(w: int)
    ensures (0 <= w < RingSize && w % BufferSize == 0) <==> w in {0, 16384, 32768, 49152}
  {
    if 0 <= w < RingSize && w % BufferSize == 0 {
      var q := w / BufferSize;
      assert w == q * BufferSize;
      assert 0 <= q < 4;
    }
  }
}
