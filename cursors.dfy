/**
 * The size_t arithmetic on the ring cursors: occupancy, cursor advance and the byte range
 * the consumer zero-fills.  size_t is 64 bits wide and wraps; the ring size divides 2^64,
 * which is why the wrapped occupancy and cursor advance agree with plain arithmetic modulo
 * the ring size.  bytes_to_write is 2 * frames whenever that product does not wrap.
 */
module Cursors {
  import opened Samples

  /** 2^64: size_t (and snd_pcm_uframes_t) arithmetic wraps modulo this. */
  const SizeModulus: int := 0x1_0000_0000_0000_0000

  /** A size_t (or snd_pcm_uframes_t) value. */
  type SizeT = x: int | 0 <= x < 0x1_0000_0000_0000_0000

  /** a - b on size_t. */
  function WrapSub(a: SizeT, b: SizeT): SizeT {
    (a - b) % SizeModulus
  }

  /** a + b on size_t. */
  function WrapAdd(a: SizeT, b: SizeT): SizeT {
    (a + b) % SizeModulus
  }

  /** Adding a multiple of the ring size does not change a residue modulo the ring size. */
  lemma ShiftByRingMultiple(x: int, q: int)
    ensures (x + q * 0x1_0000) % RingSize == x % RingSize
  {
  }

  /** Reducing modulo 2^64 first does not change the residue modulo the ring size. */
  lemma WordThenRing(x: int)
    ensures (x % SizeModulus) % RingSize == x % RingSize
  {
    var q := x / SizeModulus;
    assert x == x % SizeModulus + (q * 0x1_0000_0000_0000) * 0x1_0000;
    ShiftByRingMultiple(x % SizeModulus, q * 0x1_0000_0000_0000);
  }

  /** Residues modulo the ring size may be taken at any point of a sum. */
  lemma RingSum(a: int, b: int)
    ensures (a % RingSize + b) % RingSize == (a + b) % RingSize
  {
    ShiftByRingMultiple(a % RingSize + b, a / RingSize);
  }

  /**
   * bytes_available: (write_pos - read_pos + ring_buffer.size()) % ring_buffer.size() with
   * wrapping size_t operations.  It is below the ring size and is the difference of the
   * cursors modulo the ring size, whichever cursor is ahead.
   */
  function Occupancy(w: SizeT, r: SizeT): (n: SizeT)
    ensures n < RingSize
    ensures n == (w - r) % RingSize
  {
    WordThenRing(w - r);
    WordThenRing(WrapSub(w, r) + RingSize);
    ShiftByRingMultiple(WrapSub(w, r), 1);
    WrapAdd(WrapSub(w, r), RingSize) % RingSize
  }

  /** (pos + n) % ring_buffer.size() with a wrapping size_t sum: the modular sum of the two. */
  function Advance(pos: SizeT, n: SizeT): (p: SizeT)
    ensures p < RingSize
    ensures p == (pos + n) % RingSize
  {
    WordThenRing(pos + n);
    WrapAdd(pos, n) % RingSize
  }

  /** Of two cursors inside the ring, the occupancy is zero exactly when they are equal. */
  lemma OccupancyZeroIffEqual(w: SizeT, r: SizeT)
    requires w < RingSize && r < RingSize
    ensures Occupancy(w, r) == 0 <==> w == r
  {
  }

  /** Occupancy counts from the read cursor: reading it back from r gives w. */
  lemma OccupancyReachesWriter(w: SizeT, r: SizeT)
    requires w < RingSize && r < RingSize
    ensures Advance(r, Occupancy(w, r)) == w
  {
    var d: int := w - r;
    var n: int := Occupancy(w, r);
    assert n == d % RingSize;
    RingSum(d, r);
    assert (n + r) % RingSize == (d + r) % RingSize;
    assert d + r == w;
  }

  /** Advancing both cursors by the same amount leaves the occupancy as it was. */
  lemma OccupancyAfterEqualAdvance(w: SizeT, r: SizeT, n: SizeT)
    ensures Occupancy(Advance(w, n), Advance(r, n)) == Occupancy(w, r)
  {
    var w': int, r': int := Advance(w, n), Advance(r, n);
    var a: int, b: int := w + n, r + n;
    assert w' == a % RingSize && r' == b % RingSize;
    // w' - r' differs from a - b by a multiple of the ring size
    var q := b / RingSize - a / RingSize;
    assert w' - r' == (a - b) + q * 0x1_0000;
    ShiftByRingMultiple(a - b, q);
    assert a - b == w - r;
  }

  /**
   * A producer batch raises the occupancy by BUFFER_SIZE modulo the ring size: four batches
   * without a read bring it back where it was, so unread samples are overwritten, not kept.
   */
  lemma OccupancyAfterBatch(w: SizeT, r: SizeT)
    ensures Occupancy(Advance(w, BufferSize), r) == (Occupancy(w, r) + BufferSize) % RingSize
  {
    RingSum(w + BufferSize, -(r as int));
    RingSum(w - r, BufferSize);
  }

  /** bytes_to_write: frames * sizeof(int16_t) on snd_pcm_uframes_t. */
  function BytesToWrite(frames: SizeT): (n: SizeT)
    ensures n <= SampleBytes * frames
    ensures frames < SizeModulus / SampleBytes ==> n == SampleBytes * frames
  {
    (frames * SampleBytes) % SizeModulus
  }

  /** First byte the silence fill clears: the element at bytes_available / sizeof(int16_t). */
  function SilenceStart(available: SizeT): (b: nat)
    ensures b % SampleBytes == 0 && b <= available < b + SampleBytes
  {
    SampleBytes * (available / SampleBytes)
  }

  /** One past the last byte the silence fill clears (silence_bytes bytes from its start). */
  function SilenceEnd(frames: SizeT, available: SizeT): nat
    requires available < BytesToWrite(frames)
  {
    SilenceStart(available) + (BytesToWrite(frames) - available)
  }

  /**
   * The zero-filled byte range never goes past byte 2 * frames, so it stays inside the
   * period; it reaches that byte exactly when bytes_available is even and nothing wrapped.
   */
  lemma SilenceWithinPeriod(frames: SizeT, available: SizeT)
    requires available < BytesToWrite(frames)
    ensures SilenceStart(available) < SilenceEnd(frames, available) <= SampleBytes * frames
    ensures frames < SizeModulus / SampleBytes ==>
              (SilenceEnd(frames, available) == SampleBytes * frames <==> available % SampleBytes == 0)
  {
  }

  /**
   * The occupancy counts samples, bytes_to_write counts bytes: with anywhere from one to
   * two periods of unread samples the silence fill still runs.
   */
  lemma SilenceDespiteFullPeriod(frames: SizeT, available: SizeT)
    requires frames < SizeModulus / SampleBytes
    requires frames <= available < SampleBytes * frames
    ensures available < BytesToWrite(frames)
    ensures SilenceStart(available) < SilenceEnd(frames, available)
  {
  }
}
