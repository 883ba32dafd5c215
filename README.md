# White noise over a shared ring buffer — a Dafny model

This project models the streaming core of `noise2.cpp`. The program plays white noise through an
ALSA device with two threads that share three globals:

- `ring_buffer`, a vector of 65536 signed 16-bit samples (four batches of `BUFFER_SIZE` = 16384);
- `write_pos`, a cursor that only the producer moves;
- `read_pos`, a cursor that only the consumer moves.

The producer (the loop in `main`) runs once per tick. It refills the first 16384 slots of the ring
with noise from `std::rand()`, then moves `write_pos` on by one batch. The consumer (`audio_callback`)
runs once per hardware period. It works out the occupancy with wrapping `size_t` arithmetic. When
the occupancy looks short, it zero-fills the tail of the mapped period. It then copies `frames`
samples from `read_pos` on into the period and commits it. It stops when `keep_running` is false,
when `snd_pcm_mmap_begin` fails, or when the commit does not accept the whole period.

The files:

- `samples.dfy` (module `Samples`): the sample type, a `rand()` draw, the noise formula and
  `generate_white_noise`.
- `cursors.dfy` (module `Cursors`): `size_t` as a 64-bit wrapping type, plus the occupancy, the
  cursor advance and the byte range of the silence fill. The occupancy and the cursor advance are
  proved equal to plain arithmetic modulo 65536, because 65536 divides 2^64. `bytes_to_write` is
  proved equal to 2 * frames whenever frames * 2 does not wrap.
- `stream.dfy` (module `Stream`): the class `Stream`, which holds the ring array and the two
  cursors. Its invariant keeps both cursors inside the ring and `write_pos` on a batch boundary.
  The module has the producer step and the producer loop. It also has the byte-exact `memset` and
  silence fill on the S16_LE period buffer, the copy loop, and the whole consumer step.
- `playback.dfy` (module `Playback`): the exit rule of one iteration, the run of the loop over a
  sequence of observed iterations, and `audio_callback` as a loop over that sequence.

The model follows the code as written. It is not a drop-newest ring buffer whose pop returns only
the samples available:

- The generator writes slots 0..16383 whatever `write_pos` is (`noise2.cpp:101`). They are the
  batch at `write_pos` only when `write_pos` is 0.
- Nothing stops the producer from overwriting unread samples. `OccupancyAfterBatch` shows that each
  batch raises the occupancy by 16384 modulo 65536, so there is no drop-newest policy and no
  saturation.
- The consumer always reads `frames` samples and advances `read_pos` by `frames`, whatever the
  occupancy. There is no pop of "what is available".
- The occupancy, counted in samples, is compared with `bytes_to_write`, counted in bytes. The model
  keeps that comparison as written. `SilenceDespiteFullPeriod` shows that the silence branch runs
  even when a whole period of samples is unread.
- The silence fill is overwritten by the copy loop straight after. `ConsumePeriod` proves that the
  final period is the ring window from `read_pos`, whatever the occupancy was.
- A failed commit ends the loop. It is not recovered by re-preparing the sink.

## Model

| member | source | states |
|---|---|---|
| `Samples.NoiseSample` | noise2.cpp:25 | a sample computed from a non-negative `rand()` result lies in [-32768, 32767] |
| `Samples.NoiseSampleCoversRange` | noise2.cpp:25 | every signed 16-bit value is the sample of some draw below 65536 |
| `Samples.NoiseSampleDependsOnLowBits` | noise2.cpp:25 | two draws give the same sample if and only if they agree modulo 65536 |
| `Samples.GenerateWhiteNoise` | noise2.cpp:23-27 | slots 0..size-1 hold the samples of the draws in call order; every slot from `size` on is unchanged |
| `Cursors.Occupancy` | noise2.cpp:44 | the wrapping `size_t` occupancy is below 65536 and equals (write_pos - read_pos) mod 65536 |
| `Cursors.Advance` | noise2.cpp:54 | the wrapping cursor advance is below 65536 and equals (pos + n) mod 65536 |
| `Cursors.OccupancyZeroIffEqual` | noise2.cpp:44 | for cursors inside the ring, the occupancy is 0 if and only if the cursors are equal |
| `Cursors.OccupancyReachesWriter` | noise2.cpp:44 | advancing read_pos by the occupancy lands exactly on write_pos |
| `Cursors.OccupancyAfterEqualAdvance` | noise2.cpp:44 | advancing both cursors by the same amount leaves the occupancy unchanged |
| `Cursors.OccupancyAfterBatch` | noise2.cpp:102 | a producer step raises the occupancy by 16384 modulo 65536, so it wraps instead of saturating |
| `Cursors.SilenceStart` | noise2.cpp:49 | the memset starts at the byte of element bytes_available / 2: bytes_available rounded down to an even byte |
| `Cursors.SilenceEnd` | noise2.cpp:48-49 | one past the last cleared byte, silence_bytes after the start; its range is stated by `SilenceWithinPeriod` |
| `Cursors.BytesToWrite` | noise2.cpp:43 | frames * 2 on a 64-bit unsigned is at most 2 * frames, and equals it when nothing wraps |
| `Cursors.SilenceWithinPeriod` | noise2.cpp:46-49 | when occupancy < bytes_to_write, the zero-filled byte range is non-empty and ends at or before byte 2 * frames; it ends exactly there if and only if the occupancy is even (no wrap) |
| `Cursors.SilenceDespiteFullPeriod` | noise2.cpp:43-46 | with between frames and 2 * frames unread samples (and no wrap), the silence branch is still taken and clears a non-empty byte range |
| `Stream.Window` | noise2.cpp:53 | the samples a copy reads from the ring, wrapping at 65536; `CopyPeriod` states that the period receives them |
| `Stream.WindowsConcatenate` | noise2.cpp:52-55 | two consecutive copies read consecutive ring samples: their windows join into one window |
| `Stream.FullWindowIsRotation` | noise2.cpp:52-55 | copying 65536 samples from read_pos reads the ring rotated to start at read_pos |
| `Stream.ClearBytes` | noise2.cpp:49 | on a little-endian sample, zeroing both bytes gives 0, zeroing neither keeps the value, and each byte is zeroed or kept as its position says |
| `Stream.Memset` | noise2.cpp:49 | every element of the buffer is its old value with the bytes of [offset, offset + count) zeroed |
| `Stream.FillSilence` | noise2.cpp:46-50 | when occupancy < bytes_to_write, exactly the bytes from element occupancy/2 for bytes_to_write - occupancy bytes are zeroed; otherwise nothing changes; nothing at or after element `frames` changes; no element before occupancy/2 changes; whole elements from occupancy/2 to the end of the period become 0 |
| `Stream.Stream.constructor` | noise2.cpp:18-20 | the ring holds 65536 zero samples and both cursors are 0 |
| `Stream.Stream.ProduceBatch` | noise2.cpp:101-102 | slots 0..16383 hold the new batch and the rest of the ring is unchanged; write_pos becomes (write_pos + 16384) mod 65536 and stays on a batch boundary; read_pos is unchanged |
| `Stream.Stream.RunProducer` | noise2.cpp:100-104 | after n ticks, write_pos = (write_pos + 16384 n) mod 65536; slots 0..16383 hold the last batch, or are unchanged when there was no tick; the rest of the ring is unchanged |
| `Stream.Stream.CopyPeriod` | noise2.cpp:52-55 | buf[i] = ring[(read_pos + i) mod 65536] for i < frames, buf is unchanged from `frames` on, and read_pos becomes (read_pos + frames) mod 65536 while staying inside the ring |
| `Stream.Stream.ConsumePeriod` | noise2.cpp:43-55 | returns the occupancy; the final period is the ring window from the old read_pos, independent of the occupancy and the silence fill; read_pos advances by frames modulo 65536 |
| `Stream.BatchBoundaryAdvance` | noise2.cpp:102 | a batch-aligned write_pos stays batch-aligned after a producer step |
| `Stream.WritePosIsBatchStart` | noise2.cpp:102 | write_pos inside the ring and batch-aligned if and only if it is one of 0, 16384, 32768, 49152 |
| `Playback.AsFrames` | noise2.cpp:58 | `(snd_pcm_uframes_t)err`: a non-negative err is kept, a negative one becomes err + 2^64; `Decide` shows the test is then `commit == frames` |
| `Playback.Decide` | noise2.cpp:34-61 | an iteration continues if and only if keep_running holds, begin is non-negative and commit equals frames; it stops for the flag, for begin or for commit in exactly the corresponding cases |
| `Playback.Run` | noise2.cpp:34-62 | the loop runs on if and only if every iteration passes the exit rule; otherwise it stops at the first one that fails, for that one's reason |
| `Playback.ReadCursorIsModularSum` | noise2.cpp:52-55 | read_pos after a run of copies, advanced one copy at a time, is the start plus the frames of all the copies modulo 65536 |
| `Playback.ServePeriod` | noise2.cpp:35-61 | one iteration after the keep_running test returns what the exit rule decides; a failed begin changes nothing; otherwise the period is copied from read_pos, nothing after it in the mapped area changes, and read_pos advances by frames |
| `Playback.HealthySinkStopsOnFlag` | noise2.cpp:34-61 | with begin and commit always succeeding, the loop stops exactly at the first iteration that sees keep_running false |
| `Playback.StopsAtIff` | noise2.cpp:34-61 | the loop stops at iteration k for reason r if and only if every earlier iteration continued and iteration k fails for r |
| `Playback.AudioCallback` | noise2.cpp:29-63 | returns the exit reason of `Run` and the number of copied periods (a commit failure still counts its copy); read_pos advances by their total frames modulo 65536; the mapped area holds the ring window of the last copy, is unchanged from the largest copied frame count on, and is wholly unchanged when nothing was copied; the periods handed to the sink are `Deliveries` of the copied iterations |
| `Playback.DeliveriesAreWindows` | noise2.cpp:52-55 | period j handed to the sink is the ring window of iteration j's frames, read from where the earlier copies left read_pos |
| `Playback.DeliveriesFormOneWindow` | noise2.cpp:34-62 | the periods handed to the sink, played one after the other, are one window of the ring from the initial read_pos, as long as their total frames |

## Left out

- ALSA: opening and configuring the device, `snd_pcm_mmap_begin`, `snd_pcm_mmap_commit`,
  `snd_pcm_close` and `snd_strerror` (noise2.cpp:35, 57, 66-87, 109). This is device I/O. The
  begin and commit results and the frame count are inputs (`Playback.Period`).
- The frame count passed to `snd_pcm_mmap_begin` is the same variable on every iteration
  (noise2.cpp:32, 35), so each call asks for at most what the previous one granted. The model's
  `Period.frames` is unconstrained: it includes such shrinking runs but does not require them.
- The address arithmetic that locates the mapped area (noise2.cpp:41). A plain array `buf` stands
  for the area, with the period at its start. The `offset` into the device buffer is not modelled.
- The mapped area is one array used by every iteration of `AudioCallback`. The model does not
  capture that the device may hand out a different area each period.
- Threads, `join`, the `SCHED_FIFO` priority, the `std::atomic` memory ordering and the 10 ms sleep
  (noise2.cpp:19-21, 91-96, 103, 106-107). The producer and the consumer are separate sequential
  methods on one `Stream` object, so the model does not interleave them. The `keep_running`
  values a loop observes are inputs.
- `std::srand` and `std::rand` (noise2.cpp:89, 25). Each `rand()` result is an arbitrary input in
  [0, INT_MAX].
- Console output (noise2.cpp:37, 59, 98).
- Playback.AudioCallback: covers only runs that end within the given iterations
  (`Run(ps).StopsAt?`). An endless run is not modelled. In the program, nothing sets
  `keep_running` to false while the loops run. The store at noise2.cpp:106 runs only after the
  producer loop has already seen it false.
- Stream.Stream.RunProducer: covers a finite number of ticks, for the same reason.
- The host byte order: `memset` is modelled on little-endian samples, matching the S16_LE format
  the device is set to (noise2.cpp:78). Only the byte order of a half-cleared sample depends on
  it, and the copy loop overwrites that sample anyway.
- noise.cpp, in full. It is a blocking `snd_pcm_writei` loop, and its only computation is the
  sample formula that `Samples.NoiseSample` models.
