/** Output windows (`duration` / `end` / `copy_ts`) as the job spec states them, and the two
    places that turn them into source times for a whole input. */
module Windows {
  import opened Timeline

  const SPEC_SECONDS_MAX: real := 32_000_000_000.0

  type Seconds = r: real | 0.0 <= r <= SPEC_SECONDS_MAX

  // The largest position a job spec can name, in microseconds.
  const SPEC_MICROS_MAX: int := 32_000_000_000_000_000

  type SpecMicros = x: int | 0 <= x <= SPEC_MICROS_MAX

  /** (int64_t)(v * AV_TIME_BASE): the cast truncates, and the spec's bound keeps it in range. */
  function Micros(s: Seconds): (us: SpecMicros)
    ensures us as real <= s * 1_000_000.0 < (us + 1) as real
  {
    (s * 1_000_000.0).Floor
  }

  datatype Window = Window(duration: Seconds, end: Seconds, copyTs: bool) {
    predicate Bounded() {
      duration > 0.0 || end > 0.0
    }

    /** Where the window ends on the source timeline of something that started at `start`. */
    function Cut(start: SpecMicros): (c: int64)
      requires Bounded()
      ensures 0 <= c <= 2 * SPEC_MICROS_MAX
    {
      if duration > 0.0 then start + Micros(duration) else (if copyTs then 0 else start) + Micros(end)
    }

    /** out_cutoff_us: where the output stops on its own timeline. */
    function OutputCutoff(seekOffset: SpecMicros): int64 {
      if duration > 0.0 then (if copyTs then seekOffset else 0) + Micros(duration)
      else if end > 0.0 then Micros(end)
      else INT64_MAX
    }
  }

  /** A duration counts from the start, whatever the clock; an end from the start too, or under copy_ts from
      source zero. Both to within the microsecond that is cut off. */
  lemma CutLasts(w: Window, start: SpecMicros)
    requires w.Bounded()
    ensures var (from, span) := if w.duration > 0.0 then (start, w.duration)
                                else (if w.copyTs then 0 else start, w.end);
      (w.Cut(start) - from) as real <= span * 1_000_000.0 < (w.Cut(start) - from + 1) as real
  {}

  /** On its own timeline an output stops where its window is cut on the source's, less what its clock
      subtracts; and not at all without a window. */
  lemma OutputCutoffIsCut(w: Window, seek: SpecMicros)
    ensures !w.Bounded() ==> w.OutputCutoff(seek) == INT64_MAX
    ensures w.Bounded() ==> w.OutputCutoff(seek) == w.Cut(seek) - (if w.copyTs then 0 else seek)
  {}

  // An input's requested start: None is an input that is not seeked.
  datatype Seek = NoSeek | SeekTo(us: SpecMicros) {
    function Base(): SpecMicros {
      if SeekTo? then us else 0
    }
  }

  /** job_seek_offset_us: the first seeked input decides. */
  method JobSeekOffset(seeks: seq<Seek>) returns (us: SpecMicros)
    ensures us == FirstSeek(seeks)
    ensures (us == 0 && forall s <- seeks :: s.NoSeek?)
         || exists k :: 0 <= k < |seeks| && seeks[k] == SeekTo(us) && forall j :: 0 <= j < k ==> seeks[j].NoSeek?
  {
    for i := 0 to |seeks|
      invariant FirstSeek(seeks) == FirstSeek(seeks[i..]) && forall j :: 0 <= j < i ==> seeks[j].NoSeek?
    {
      if seeks[i].SeekTo? {
        return seeks[i].us;
      }
    }
    return 0;
  }

  function FirstSeek(seeks: seq<Seek>): SpecMicros {
    if seeks == [] then 0 else if seeks[0].SeekTo? then seeks[0].us else FirstSeek(seeks[1..])
  }

  /** The source time past which reading an input stops; INT64_MAX reads to its end. */
  method InputCutoff(seek: Seek, outs: seq<Window>) returns (cutoff: int64)
    ensures cutoff == INT64_MAX <==> exists w <- outs :: !w.Bounded()
    ensures (forall w <- outs :: w.Bounded()) ==>
              && (forall w <- outs :: w.Cut(seek.Base()) + SECOND <= cutoff)
              && (cutoff == SECOND || exists w <- outs :: w.Cut(seek.Base()) + SECOND == cutoff)
  {
    var maxCut: int64 := 0;
    for j := 0 to |outs|
      invariant forall w <- outs[..j] :: w.Bounded() && w.Cut(seek.Base()) <= maxCut
      invariant maxCut == 0 || exists w <- outs[..j] :: w.Bounded() && w.Cut(seek.Base()) == maxCut
      invariant 0 <= maxCut <= 2 * SPEC_MICROS_MAX
    {
      if !outs[j].Bounded() {
        return INT64_MAX;
      }
      var cut := outs[j].Cut(seek.Base());
      assert outs[..j + 1] == outs[..j] + [outs[j]];
      if cut > maxCut {
        maxCut := cut;
        assert outs[j] in outs[..j + 1];
      }
    }
    assert outs[..|outs|] == outs;
    cutoff := maxCut + SECOND;
  }
}
