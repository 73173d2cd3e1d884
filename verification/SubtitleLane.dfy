/** The subtitle transcode lane: which part of a cue the output window shows, and where. */
module SubtitleLane {
  import opened Basics
  import opened Timeline
  import opened Windows
  import opened MuxFixup
  import opened CopyLane

  type uint32 = x: int | 0 <= x < 0x1_0000_0000

  // An event's time on some timeline; a duration read from an event may be zero or negative.
  datatype Cue = Cue(start: int64, duration: int) {
    function End(): int {
      start + duration
    }
  }

  // Display times are 32-bit milliseconds, so no duration reaches 2^32 of them.
  const DURATION_LIMIT: int := 0x1_0000_0000 * 1000

  datatype Shown = Hidden | Visible(cue: Cue)

  // A decoded subtitle event: its pts in microseconds, and display times in milliseconds from it.
  datatype Event = Event(pts: int64, startMs: uint32, endMs: uint32) {
    /** The event on the source timeline. */
    function Source(): Cue {
      Cue(TsAdd(if pts != NOPTS then pts else 0, startMs * 1000), (endMs - startMs) * 1000)
    }
  }

  // The window on the source timeline, with INT64_MAX for no end, and the output's clock.
  datatype Stretch = Stretch(seek: SpecMicros, cutoff: int64, copyTs: bool) {
    predicate Valid() {
      cutoff == INT64_MAX || 0 <= cutoff <= 2 * SPEC_MICROS_MAX
    }

    predicate Bounded() {
      cutoff != INT64_MAX
    }

    /** What the output's clock subtracts from source times. */
    function Shift(): SpecMicros {
      if copyTs then 0 else seek
    }
  }

  function StretchOf(w: Window, seek: Seek): (s: Stretch)
    ensures s.Valid() && (s.Bounded() <==> w.Bounded())
  {
    Stretch(seek.Base(), if w.Bounded() then w.Cut(seek.Base()) else INT64_MAX, w.copyTs)
  }

  predicate Untouched(s: Stretch, e: Cue) {
    s.seek <= e.start && (s.Bounded() ==> e.End() <= s.cutoff)
  }

  /** Where the visible part of the event ends on the source timeline. */
  function VisibleEnd(s: Stretch, e: Cue): int {
    if s.Bounded() then Min(e.End(), s.cutoff) else e.End()
  }

  /** The intended answer: the event cut to the stretch [seek, cutoff). An event the window does
      not cut keeps its duration as it came, zero included. */
  function Intended(s: Stretch, e: Cue): Shown {
    if e.start >= s.cutoff then Hidden
    else if Untouched(s, e) then Visible(Cue(e.start - s.Shift(), e.duration))
    else
      var lo, hi := Max(e.start, s.seek), VisibleEnd(s, e);
      if hi <= lo then Hidden else Visible(Cue(lo - s.Shift(), hi - lo))
  }

  /** The one family the lane gets wrong: under copy_ts with a seek, an event that begins before
      source time zero and is still visible after it is cut at zero instead of at the seek. */
  predicate CutAtZero(s: Stretch, e: Cue) {
    s.copyTs && s.seek > 0 && e.start < 0 < VisibleEnd(s, e)
  }

  /** Event durations are differences of 32-bit display times. */
  predicate FromEvent(e: Cue) {
    -DURATION_LIMIT < e.duration < DURATION_LIMIT
  }

  /** What the lane shows, branch by branch: first the window's end, then its start on the output's
      clock, then whether cutting left anything. */
  function Written(s: Stretch, e: Cue): Shown
    requires s.Valid() && FromEvent(e)
  {
    if e.start >= s.cutoff then Hidden
    else
      var late := s.cutoff != INT64_MAX && TsAdd(e.start, e.duration) > s.cutoff;
      var dur := if late then s.cutoff - e.start else e.duration;
      var out := if s.copyTs then e.start else TsSub(e.start, s.seek);
      var early := out < 0 || (s.copyTs && e.start < s.seek);
      var (start, rest) := if out < 0 then (0, dur + out)
                           else if early then (s.seek, dur - (s.seek - e.start))
                           else (out, dur);
      if (late || early) && rest <= 0 then Hidden else Visible(Cue(start, rest))
  }

  /** The lane shows what was intended if and only if the event is not one of that family. */
  lemma WrittenIsIntended(s: Stretch, e: Cue)
    requires s.Valid() && FromEvent(e)
    ensures Written(s, e) == Intended(s, e) <==> !CutAtZero(s, e)
    ensures CutAtZero(s, e) ==> Written(s, e) == Visible(Cue(0, VisibleEnd(s, e)))
  {}

  /** write_sub_pkt up to the encoder, once the window's end is known. */
  method Clip(s: Stretch, e: Cue) returns (shown: Shown)
    requires s.Valid() && FromEvent(e)
    ensures shown == Intended(s, e) <==> !CutAtZero(s, e)
    ensures CutAtZero(s, e) ==> shown == Visible(Cue(0, VisibleEnd(s, e)))
    ensures shown == Written(s, e)
  {
    var startUs, durUs, clipped := e.start, e.duration, false;
    if startUs >= s.cutoff {
      return Hidden;
    }
    if s.cutoff != INT64_MAX && TsAdd(startUs, durUs) > s.cutoff {
      durUs := s.cutoff - startUs;
      clipped := true;
    }
    var outUs := if s.copyTs then startUs else TsSub(startUs, s.seek);
    if outUs < 0 {
      durUs := durUs + outUs;
      outUs := 0;
      clipped := true;
    } else if s.copyTs && startUs < s.seek {
      durUs := durUs - (s.seek - startUs);
      outUs := s.seek;
      clipped := true;
    }
    if clipped && durUs <= 0 {
      return Hidden;
    }
    shown := Visible(Cue(outUs, durUs));
  }

  /** The packet's time fits, and none of it turns into the unknown stamp. */
  predicate Fits(c: Cue, tb: Ratio)
    requires Positive(tb)
  {
    INT64_MIN < Exact(c.start, MICROS, tb) <= INT64_MAX && INT64_MIN < Exact(c.duration, MICROS, tb) <= INT64_MAX
  }

  /** It starts within half a tick of the cue, and ends within a whole one. */
  ghost predicate Near(p: CopyPkt, c: Cue, tb: Ratio)
    requires Positive(tb)
  {
    && Gap(InSeconds(p.at.pts, tb), InSeconds(c.start, MICROS)) <= InSeconds(1, tb) / 2.0
    && Gap(InSeconds(p.at.pts + p.duration, tb), InSeconds(c.End(), MICROS)) <= InSeconds(1, tb)
  }

  lemma CueLandsNear(c: Cue, tb: Ratio)
    requires Positive(tb) && InRange(c.duration) && Fits(c, tb)
    ensures var pts := Rescale(c.start, MICROS, tb);
      Near(CopyPkt(Stamps(pts, pts), Rescale(c.duration, MICROS, tb)), c, tb)
  {
    hide Exact;
    var (start, duration) := (Exact(c.start, MICROS, tb), Exact(c.duration, MICROS, tb));
    RescaleError(c.start, MICROS, tb);
    RescaleError(c.duration, MICROS, tb);
    InSecondsAdds(start, duration, tb);
    InSecondsAdds(c.start, c.duration, MICROS);
  }

  lemma InSecondsAdds(s: int, t: int, tb: Ratio)
    requires Positive(tb)
    ensures InSeconds(s + t, tb) == InSeconds(s, tb) + InSeconds(t, tb)
  {}

  lemma ShownFits(s: Stretch, e: Cue)
    requires s.Valid() && FromEvent(e)
    ensures Written(s, e).Visible? ==> InRange(Written(s, e).cue.duration)
  {}

  /** The whole of write_sub_pkt but for the encoder, for a window and a seek as the job states them:
      what it shows is the event cut to the window, if and only if the event is not of that family, and
      the packet it is put in is that close to it. */
  method WriteSub(w: Window, seek: Seek, e: Event, tb: Ratio) returns (shown: Shown, pkt: Option<CopyPkt>)
    requires Positive(tb)
    ensures pkt.Some? <==> shown.Visible?
    ensures pkt.Some? ==> pkt.value.at.dts == pkt.value.at.pts
    ensures pkt.Some? && Fits(shown.cue, tb) ==> Near(pkt.value, shown.cue, tb)
    ensures shown == Intended(StretchOf(w, seek), e.Source()) <==> !CutAtZero(StretchOf(w, seek), e.Source())
    ensures shown == Written(StretchOf(w, seek), e.Source())
  {
    var base: int64 := if e.pts != NOPTS then e.pts else 0;
    var seek0 := if seek.SeekTo? then seek.us else 0;
    var cutoff: int64 := INT64_MAX;
    if w.duration > 0.0 {
      cutoff := seek0 + Micros(w.duration);
    } else if w.end > 0.0 {
      cutoff := (if w.copyTs then 0 else seek0) + Micros(w.end);
    }
    var s := Stretch(seek0, cutoff, w.copyTs);
    assert s == StretchOf(w, seek);
    var c := Cue(TsAdd(base, e.startMs * 1000), (e.endMs - e.startMs) * 1000);
    assert c == e.Source();
    shown := Clip(s, c);
    ShownFits(s, c);
    match shown {
      case Hidden => pkt := None;
      case Visible(cue) =>
        var pts := Rescale(cue.start, MICROS, tb);
        pkt := Some(CopyPkt(Stamps(pts, pts), Rescale(cue.duration, MICROS, tb)));
        if Fits(cue, tb) {
          CueLandsNear(cue, tb);
        }
    }
  }

  predicate On(c: Cue, x: int) {
    c.start <= x < c.start + c.duration
  }

  /** Instant by instant: an event lasting some time is shown exactly while it and the window are
      both on, on the output's own clock. */
  lemma IntendedIsIntersection(s: Stretch, e: Cue, x: int)
    requires e.duration > 0 && (s.Bounded() || e.start < INT64_MAX)
    ensures (Intended(s, e).Visible? && On(Intended(s, e).cue, x - s.Shift()))
       <==> (e.start <= x < e.End() && s.seek <= x && (s.Bounded() ==> x < s.cutoff))
  {}

  /** An event that lasts no time is shown, at its own start and as it came, exactly while the window is on. */
  lemma InstantIsShownInside(s: Stretch, e: Cue)
    requires s.Valid() && e.duration <= 0
    ensures Intended(s, e) ==
      if s.seek <= e.start < s.cutoff then Visible(Cue(e.start - s.Shift(), e.duration)) else Hidden
  {}

  /** An event is on from its display start to its display end, in milliseconds from its pts or, without one, from
      zero. */
  lemma EventIsOn(e: Event)
    requires InRange((if e.pts != NOPTS then e.pts else 0) + e.startMs * 1000)
    ensures var base := if e.pts != NOPTS then InSeconds(e.pts, MICROS) else 0.0;
      && InSeconds(e.Source().start, MICROS) == base + InSeconds(e.startMs, Ratio(1, 1000))
      && InSeconds(e.Source().End(), MICROS) == base + InSeconds(e.endMs, Ratio(1, 1000))
  {}

  /** `duration`, `end` and `copy_ts` that describe the same stretch of source show the same
      stretch of every event; only the clock differs. */
  lemma SameStretchSameCue(v: Window, w: Window, seek: Seek, e: Cue)
    requires StretchOf(v, seek).cutoff == StretchOf(w, seek).cutoff
    ensures match (Intended(StretchOf(v, seek), e), Intended(StretchOf(w, seek), e))
      case (Hidden, Hidden) => true
      case (Visible(a), Visible(b)) =>
        a.start + StretchOf(v, seek).Shift() == b.start + StretchOf(w, seek).Shift() && a.duration == b.duration
      case _ => false
  {}

  /** A concrete event shown from source zero although the output starts a minute in. */
  lemma CutAtZeroExample()
    ensures var (s, e) := (Stretch(60_000_000, INT64_MAX, true), Cue(-1_000_000, 100_000_000));
      Written(s, e) == Visible(Cue(0, 99_000_000)) && Intended(s, e) == Visible(Cue(60_000_000, 39_000_000))
  {}
}
