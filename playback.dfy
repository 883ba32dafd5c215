/**
 * The consumer thread of noise2.cpp (audio_callback): the loop that, once per period, asks
 * the sink for a mapped area, fills it from the ring and commits it, and the rule by which
 * that loop ends.
 */
module Playback {
  import opened Samples
  import opened Cursors
  import opened Stream

  /**
   * A C int: the result of snd_pcm_mmap_begin, and the value of err after the
   * snd_pcm_sframes_t result of snd_pcm_mmap_commit has been assigned to it.
   */
  type Int32 = x: int | -0x8000_0000 <= x < 0x8000_0000

  /**
   * What one iteration of the loop observes: keep_running at the loop test, the result of
   * snd_pcm_mmap_begin with the frame count it hands back, and the result of
   * snd_pcm_mmap_commit.
   */
  datatype Period = Period(running: bool, begin: Int32, frames: SizeT, commit: Int32)

  /** Why the loop ended. */
  datatype Exit = StopRequested | BeginFailed | CommitFailed

  /** What the loop does after one iteration. */
  datatype Step = Continue | Break(why: Exit)

  /** (snd_pcm_uframes_t)err: the int converted to a 64-bit unsigned value. */
  function AsFrames(err: Int32): (f: SizeT)
    ensures err >= 0 ==> f == err
    ensures err < 0 ==> f == SizeModulus + err
  {
    err % SizeModulus
  }

  /**
   * The exit rule of one iteration: stop when keep_running is false, break on a negative
   * begin result, break when the commit result is negative or not the frame count.
   */
  function Decide(p: Period): (s: Step)
    ensures s == Continue <==> p.running && p.begin >= 0 && p.commit == p.frames
    ensures s == Break(StopRequested) <==> !p.running
    ensures s == Break(BeginFailed) <==> p.running && p.begin < 0
    ensures s == Break(CommitFailed) <==> p.running && p.begin >= 0 && p.commit != p.frames
  {
    if !p.running then Break(StopRequested)
    else if p.begin < 0 then Break(BeginFailed)
    else if p.commit < 0 || AsFrames(p.commit) != p.frames then Break(CommitFailed)
    else Continue
  }

  /** Where a sequence of iterations leads: on past all of them, or out at one of them. */
  datatype Outcome = RunsOn | StopsAt(index: nat, why: Exit)

  /**
   * The loop over the observed iterations: it ends at the first iteration whose exit rule
   * says so, for that iteration's reason, and runs on past all of them when none does.
   */
  function Run(ps: seq<Period>): (o: Outcome)
    ensures o.RunsOn? <==> forall j | 0 <= j < |ps| :: Decide(ps[j]) == Continue
    ensures o.StopsAt? ==> o.index < |ps| && Decide(ps[o.index]) == Break(o.why)
    ensures o.StopsAt? ==> forall j | 0 <= j < o.index :: Decide(ps[j]) == Continue
  {
    if ps == [] then RunsOn
    else match Decide(ps[0])
      case Break(why) => StopsAt(0, why)
      case Continue =>
        var rest := Run(ps[1..]);
        assert forall j | 1 <= j < |ps| :: ps[j] == ps[1..][j - 1];
        match rest
        case RunsOn => RunsOn
        case StopsAt(k, why) => StopsAt(k + 1, why)
  }

  /** Number of iterations whose copy ran: those that continued, plus one that failed to commit. */
  function CopiedPeriods(o: Outcome): nat
    requires o.StopsAt?
  {
    o.index + if o.why == CommitFailed then 1 else 0
  }

  /** Frames copied out of the ring by the given iterations. */
  function TotalFrames(ps: seq<Period>): nat {
    if ps == [] then 0 else TotalFrames(ps[..|ps| - 1]) + ps[|ps| - 1].frames
  }

  /** The largest frame count among the given iterations: how far into the mapped area their copies reach. */
  function MaxFrames(ps: seq<Period>): nat {
    if ps == [] then 0
    else
      var m := MaxFrames(ps[..|ps| - 1]);
      if m < ps[|ps| - 1].frames then ps[|ps| - 1].frames else m
  }

  /** read_pos after copies of the given iterations from start, one cursor advance per copy. */
  function ReadCursor(start: SizeT, ps: seq<Period>): SizeT {
    if ps == [] then start else Advance(ReadCursor(start, ps[..|ps| - 1]), ps[|ps| - 1].frames)
  }

  /** The cursor after a run of copies is the start plus all their frames, modulo the ring size. */
  lemma {:induction false} ReadCursorIsModularSum(start: SizeT, ps: seq<Period>)
    requires start < RingSize
    ensures ReadCursor(start, ps) == (start + TotalFrames(ps)) % RingSize
  {
    if ps != [] {
      var init := ps[..|ps| - 1];
      ReadCursorIsModularSum(start, init);
      RingSum(start + TotalFrames(init), ps[|ps| - 1].frames);
    }
  }

  /** Copying iteration i advances the cursor from where the earlier copies left it. */
  lemma ReadCursorExtend(start: SizeT, ps: seq<Period>, i: nat)
    requires i < |ps|
    ensures ReadCursor(start, ps[..i + 1]) == Advance(ReadCursor(start, ps[..i]), ps[i].frames)
  {
    assert ps[..i + 1][..i] == ps[..i];
  }

  /**
   * With a sink that never fails, the loop runs exactly while keep_running holds: it stops
   * at the first iteration that sees the flag false, and for that reason.
   */
  lemma HealthySinkStopsOnFlag(ps: seq<Period>, k: nat)
    requires k < |ps| && !ps[k].running
    requires forall j | 0 <= j < k :: ps[j].running
    requires forall j | 0 <= j < k :: ps[j].begin >= 0 && ps[j].commit == ps[j].frames
    ensures Run(ps) == StopsAt(k, StopRequested)
  {
  }

  /**
   * The loop stops at iteration k for reason why exactly when every earlier iteration passed
   * the exit rule and iteration k failed it for that reason.
   */
  lemma StopsAtIff(ps: seq<Period>, k: nat, why: Exit)
    ensures Run(ps) == StopsAt(k, why) <==>
              k < |ps| && Decide(ps[k]) == Break(why) && forall j | 0 <= j < k :: Decide(ps[j]) == Continue
  {
  }

  /**
   * One iteration of the loop once keep_running has been seen true: give up on a failed
   * begin, otherwise consume one period and judge the commit result.  Returns what the exit
   * rule decides; the period was copied unless begin failed.
   */
  method ServePeriod(s: Stream, buf: array<Sample>, p: Period) returns (step: Step)
    requires s.Valid() && buf != s.ring && p.running && p.frames <= buf.Length
    modifies s`readPos, buf
    ensures s.Valid()
    ensures step == Decide(p)
    ensures step == Break(BeginFailed) ==> s.readPos == old(s.readPos) && buf[..] == old(buf[..])
    ensures step != Break(BeginFailed) ==>
              && s.readPos == Advance(old(s.readPos), p.frames)
              && buf[..p.frames] == Window(s.ring[..], old(s.readPos), p.frames)
              && buf[p.frames..] == old(buf[p.frames..])
  {
    if p.begin < 0 {
      return Break(BeginFailed);
    }
    var _ := s.ConsumePeriod(buf, p.frames);
    if p.commit < 0 || AsFrames(p.commit) != p.frames {
      return Break(CommitFailed);
    }
    return Continue;
  }

  /** The periods handed to the sink, one after the other, as one stream of samples. */
  function Concat(chunks: seq<seq<Sample>>): seq<Sample> {
    if chunks == [] then [] else Concat(chunks[..|chunks| - 1]) + chunks[|chunks| - 1]
  }

  /**
   * The periods the copies of the iterations ps hand to the sink, in order: each is the
   * ring window at the read position its iteration starts from.
   */
  function Deliveries(ring: seq<Sample>, start: SizeT, ps: seq<Period>): seq<seq<Sample>>
    requires |ring| == RingSize
  {
    if ps == [] then []
    else
      var init := ps[..|ps| - 1];
      Deliveries(ring, start, init) + [Window(ring, ReadCursor(start, init), ps[|ps| - 1].frames)]
  }

  /** Period j of the deliveries is the window of iteration j, read from where the earlier copies left off. */
  lemma {:induction false} DeliveriesAreWindows(ring: seq<Sample>, start: SizeT, ps: seq<Period>)
    requires |ring| == RingSize
    ensures |Deliveries(ring, start, ps)| == |ps|
    ensures forall j | 0 <= j < |ps| ::
              Deliveries(ring, start, ps)[j] == Window(ring, ReadCursor(start, ps[..j]), ps[j].frames)
  {
    if ps != [] {
      var init := ps[..|ps| - 1];
      var d, w := Deliveries(ring, start, init), Window(ring, ReadCursor(start, init), ps[|ps| - 1].frames);
      DeliveriesAreWindows(ring, start, init);
      assert Deliveries(ring, start, ps) == d + [w];
      forall j | 0 <= j < |ps|
        ensures (d + [w])[j] == Window(ring, ReadCursor(start, ps[..j]), ps[j].frames)
      {
        if j < |init| {
          assert (d + [w])[j] == d[j];
          assert init[..j] == ps[..j];
        }
      }
    }
  }

  /** Played one after the other, the deliveries are one window of the ring from the first read position. */
  lemma {:induction false} DeliveriesFormOneWindow(ring: seq<Sample>, start: SizeT, ps: seq<Period>)
    requires |ring| == RingSize && start < RingSize
    ensures Concat(Deliveries(ring, start, ps)) == Window(ring, start, TotalFrames(ps))
  {
    if ps != [] {
      var init := ps[..|ps| - 1];
      var d := Deliveries(ring, start, init);
      DeliveriesFormOneWindow(ring, start, init);
      var w := Window(ring, ReadCursor(start, init), ps[|ps| - 1].frames);
      assert (d + [w])[..|d|] == d;
      StreamExtend(ring, start, ps, |ps| - 1, Concat(d), w);
      assert ps[..|ps|] == ps;
    }
  }

  /** Copying iteration i adds its window to the deliveries of the earlier iterations. */
  lemma DeliveriesExtend(ring: seq<Sample>, start: SizeT, ps: seq<Period>, i: nat)
    requires |ring| == RingSize && i < |ps|
    ensures Deliveries(ring, start, ps[..i + 1]) ==
              Deliveries(ring, start, ps[..i]) + [Window(ring, ReadCursor(start, ps[..i]), ps[i].frames)]
  {
    assert ps[..i + 1][..i] == ps[..i];
  }

  /** The stream read so far followed by the next window is the window of all frames so far. */
  lemma StreamExtend(ring: seq<Sample>, start: SizeT, ps: seq<Period>, i: nat, sofar: seq<Sample>, w: seq<Sample>)
    requires |ring| == RingSize && start < RingSize && i < |ps|
    requires sofar == Window(ring, start, TotalFrames(ps[..i]))
    requires w == Window(ring, ReadCursor(start, ps[..i]), ps[i].frames)
    ensures sofar + w == Window(ring, start, TotalFrames(ps[..i + 1]))
  {
    assert ps[..i + 1][..i] == ps[..i];
    ReadCursorIsModularSum(start, ps[..i]);
    WindowsConcatenate(ring, start, TotalFrames(ps[..i]), ps[i].frames);
  }

  /**
   * An area whose tail from f is as it was before a copy, and whose tail from m was as at the
   * start before that copy, has kept its starting tail from the larger of the two.
   */
  lemma TailsCompose(start: seq<Sample>, before: seq<Sample>, after: seq<Sample>, m: nat, f: nat)
    requires |before| == |start| && |after| == |start| && m <= |start| && f <= |start|
    requires before[m..] == start[m..] && after[f..] == before[f..]
    ensures var top := if m < f then f else m; after[top..] == start[top..]
  {
    var top := if m < f then f else m;
    forall k | top <= k < |start|
      ensures after[k] == start[k]
    {
      assert after[k] == after[f..][k - f] && before[k] == before[f..][k - f];
      assert before[k] == before[m..][k - m] && start[k] == start[m..][k - m];
    }
  }

  /**
   * The mapped area holds what the last of the first n copied periods read from the ring,
   * the copies having started at slot start.
   */
  ghost predicate HoldsLastCopy(area: seq<Sample>, ring: seq<Sample>, start: SizeT, ps: seq<Period>, n: nat)
    requires |ring| == RingSize && n <= |ps|
  {
    n > 0 ==>
      && ps[n - 1].frames <= |area|
      && area[..ps[n - 1].frames] == Window(ring, ReadCursor(start, ps[..n - 1]), ps[n - 1].frames)
  }

  /**
   * The mapped area after the first n iterations, starting out as orig: it holds the window
   * of the last copied period, it is as it was from the largest copied frame count on, and
   * it is untouched when nothing was copied.
   */
  ghost predicate AreaKept(area: seq<Sample>, orig: seq<Sample>, ring: seq<Sample>, start: SizeT, ps: seq<Period>, n: nat)
    requires |ring| == RingSize && n <= |ps|
  {
    && |area| == |orig|
    && HoldsLastCopy(area, ring, start, ps, n)
    && MaxFrames(ps[..n]) <= |area|
    && area[MaxFrames(ps[..n])..] == orig[MaxFrames(ps[..n])..]
    && (n == 0 ==> area == orig)
  }

  /** A copy of iteration i that leaves the area beyond its frames alone keeps AreaKept going. */
  lemma AreaAfterCopy(orig: seq<Sample>, before: seq<Sample>, after: seq<Sample>, ring: seq<Sample>, start: SizeT, ps: seq<Period>, i: nat)
    requires |ring| == RingSize && i < |ps| && |after| == |before| && ps[i].frames <= |before|
    requires AreaKept(before, orig, ring, start, ps, i)
    requires after[..ps[i].frames] == Window(ring, ReadCursor(start, ps[..i]), ps[i].frames)
    requires after[ps[i].frames..] == before[ps[i].frames..]
    ensures AreaKept(after, orig, ring, start, ps, i + 1)
  {
    assert ps[..i + 1][..i] == ps[..i];
    TailsCompose(orig, before, after, MaxFrames(ps[..i]), ps[i].frames);
  }

  /**
   * What one copied period adds to the delivered stream and the read cursor: the window of
   * iteration i joins the deliveries, and the cursor moves on by its frames.
   */
  lemma AfterCopy(area: seq<Sample>, ring: seq<Sample>, start: SizeT, ps: seq<Period>, i: nat)
    requires |ring| == RingSize && i < |ps| && ps[i].frames <= |area|
    requires area[..ps[i].frames] == Window(ring, ReadCursor(start, ps[..i]), ps[i].frames)
    ensures Deliveries(ring, start, ps[..i + 1]) == Deliveries(ring, start, ps[..i]) + [area[..ps[i].frames]]
    ensures ReadCursor(start, ps[..i + 1]) == Advance(ReadCursor(start, ps[..i]), ps[i].frames)
  {
    DeliveriesExtend(ring, start, ps, i);
    ReadCursorExtend(start, ps, i);
  }

  /**
   * audio_callback over the iterations ps, which end the loop somewhere: returns why the
   * loop ended and how many periods it copied.  read_pos has advanced by the frames of the
   * copied periods modulo the ring size, and the mapped area holds the ring samples that
   * the last copy read, is as it was from the largest copied frame count on, and is
   * untouched when nothing was copied.  delivered lists the
   * periods as the sink received them, which are the Deliveries of the copied iterations.
   * The ring and write_pos are not changed.
   */
  method AudioCallback(s: Stream, ps: seq<Period>, buf: array<Sample>)
    returns (why: Exit, periods: nat, ghost delivered: seq<seq<Sample>>)
    requires s.Valid() && buf != s.ring
    requires Run(ps).StopsAt?
    requires forall j | 0 <= j < |ps| :: ps[j].frames <= buf.Length
    modifies s`readPos, buf
    ensures s.Valid()
    ensures why == Run(ps).why
    ensures periods == CopiedPeriods(Run(ps)) && periods <= |ps|
    ensures s.readPos == ReadCursor(old(s.readPos), ps[..periods])
    ensures s.readPos == (old(s.readPos) + TotalFrames(ps[..periods])) % RingSize
    ensures AreaKept(buf[..], old(buf[..]), s.ring[..], old(s.readPos), ps, periods)
    ensures delivered == Deliveries(s.ring[..], old(s.readPos), ps[..periods])
  {
    ghost var stop := Run(ps).index;
    ghost var ring, start := s.ring[..], s.readPos;
    var i := 0;
    why := StopRequested;
    periods := 0;
    delivered := [];
    while ps[i].running
      invariant i <= stop
      invariant forall j | 0 <= j < i :: Decide(ps[j]) == Continue
      invariant periods == i
      invariant s.Valid() && s.ring[..] == ring
      invariant s.readPos == ReadCursor(start, ps[..i])
      invariant AreaKept(buf[..], old(buf[..]), ring, start, ps, i)
      invariant delivered == Deliveries(ring, start, ps[..i])
      decreases stop - i
    {
      ghost var before := buf[..];
      var step := ServePeriod(s, buf, ps[i]);
      if step == Break(BeginFailed) {
        why := BeginFailed;
        break;
      }
      periods := periods + 1;
      assert buf[..][..ps[i].frames] == buf[..ps[i].frames];
      AfterCopy(buf[..], ring, start, ps, i);
      AreaAfterCopy(old(buf[..]), before, buf[..], ring, start, ps, i);
      delivered := delivered + [buf[..][..ps[i].frames]];
      if step == Break(CommitFailed) {
        why := CommitFailed;
        break;
      }
      assert Decide(ps[i]) == Continue && Decide(ps[stop]) != Continue;
      i := i + 1;
    }
    // both breaks and the loop test leave at the iteration the exit rule stops at
    assert Decide(ps[i]) == Break(why);
    StopsAtIff(ps, i, why);
    ReadCursorIsModularSum(start, ps[..periods]);
  }
}
