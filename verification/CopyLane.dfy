/** The stream-copy lane: which packets of an (input, output) pair survive the output window,
    and where the survivors land. The window starts at a presentation time and is decided on
    decode time. */
module CopyLane {
  import opened Basics
  import opened Timeline
  import opened Windows
  import opened MuxFixup

  // What an input stream knows about its own pace, for packets that arrive without a duration.
  datatype Pace = FrameRate(rate: Ratio) | SampleBlocks(sampleRate: int, frameSize: int64) | Unpaced

  // One copied stream as it reaches the lane: its time base, the muxer's, and its pace.
  datatype Source = Source(tb: Ratio, outTb: Ratio, pace: Pace) {
    predicate Valid() {
      && Positive(tb) && Positive(outTb)
      && (pace.FrameRate? ==> Positive(pace.rate))
      && (pace.SampleBlocks? ==> pace.sampleRate > 0 && pace.frameSize > 0)
    }
  }

  datatype CopyPkt = CopyPkt(at: Stamps, duration: int64)

  /** Presentation first: where the pair's window starts. */
  function Anchor(p: Stamps): int64 {
    if p.pts != NOPTS then p.pts else p.dts
  }

  /** Decode first: which side of the cutoff a packet is on. */
  function DecodeTime(p: Stamps): int64 {
    if p.dts != NOPTS then p.dts else p.pts
  }

  predicate Timed(p: Stamps) {
    DecodeTime(p) != NOPTS
  }

  /** The pair's rebase offset once packet p has been looked at. */
  function Captured(rebase: int64, tb: Ratio, p: Stamps): int64
    requires Positive(tb)
  {
    if Timed(p) && rebase == NOPTS then Rescale(Anchor(p), tb, MICROS) else rebase
  }

  function LaneCutoff(w: Window, rebase: int64): int64 {
    if w.duration > 0.0 then TsAdd(rebase, Micros(w.duration))
    else if w.end > 0.0 then TsAdd(if w.copyTs then 0 else rebase, Micros(w.end))
    else INT64_MAX
  }

  predicate Kept(w: Window, rebase: int64, tb: Ratio, p: Stamps)
    requires Positive(tb)
  {
    Timed(p) ==> Rescale(DecodeTime(p), tb, MICROS) < LaneCutoff(w, rebase)
  }

  function ShiftStamp(t: int64, off: int64): int64 {
    if t != NOPTS then TsSub(t, off) else NOPTS
  }

  function RescaleStamp(t: int64, from: Ratio, to: Ratio): int64
    requires Positive(from) && Positive(to)
  {
    if t != NOPTS then Rescale(t, from, to) else NOPTS
  }

  /** Where one stamp of a kept packet lands on the output. */
  function Landed(w: Window, rebase: int64, src: Source, timed: bool, t: int64): int64
    requires src.Valid()
  {
    var shifted := if timed && !w.copyTs then ShiftStamp(t, Rescale(rebase, MICROS, src.tb)) else t;
    RescaleStamp(shifted, src.tb, src.outTb)
  }

  function LandedStamps(w: Window, rebase: int64, src: Source, p: Stamps): Stamps
    requires src.Valid()
  {
    Stamps(Landed(w, rebase, src, Timed(p), p.pts), Landed(w, rebase, src, Timed(p), p.dts))
  }

  /** A missing duration is one frame, or one block of samples, of the source stream. */
  function FilledDuration(src: Source, duration: int64): int64
    requires src.Valid()
  {
    if duration > 0 then duration
    else match src.pace
      case FrameRate(rate) => Rescale(1, Ratio(rate.den, rate.num), src.tb)
      case SampleBlocks(sampleRate, frameSize) =>
        Rescale(frameSize, Ratio(1, sampleRate), src.tb)
      case Unpaced => duration
  }

  /** And lands in the output's time base. */
  function LandedDuration(src: Source, duration: int64): int64
    requires src.Valid()
  {
    var d := FilledDuration(src, duration);
    if d > 0 then Rescale(d, src.tb, src.outTb) else d
  }

  /** The rebase table of a job: one offset per (input, output) pair. */
  class Rebases {
    const us: array2<int64>

    constructor (inputs: nat, outputs: nat)
      ensures fresh(us) && us.Length0 == inputs && us.Length1 == outputs
      ensures forall i, o :: 0 <= i < inputs && 0 <= o < outputs ==> us[i, o] == NOPTS
    {
      us := new int64[inputs, outputs]((_, _) => NOPTS);
    }

    /** write_copy_pkt up to the hand-over to the muxer: None is a packet past the window. */
    method WriteCopyPkt(inIdx: nat, outIdx: nat, w: Window, src: Source, pkt: CopyPkt)
      returns (out: Option<CopyPkt>)
      requires inIdx < us.Length0 && outIdx < us.Length1 && src.Valid()
      modifies us
      ensures us[inIdx, outIdx] == Captured(old(us[inIdx, outIdx]), src.tb, pkt.at)
      ensures forall i, o :: 0 <= i < us.Length0 && 0 <= o < us.Length1 && (i, o) != (inIdx, outIdx) ==>
                us[i, o] == old(us[i, o])
      ensures out.Some? <==> Kept(w, us[inIdx, outIdx], src.tb, pkt.at)
      ensures out.Some? ==> out.value.at == LandedStamps(w, us[inIdx, outIdx], src, pkt.at)
      ensures out.Some? ==> out.value.duration == LandedDuration(src, pkt.duration)
    {
      hide Rescale, TsAdd, TsSub;
      var pts, dts, duration := pkt.at.pts, pkt.at.dts, pkt.duration;
      var anchor := if pts != NOPTS then pts else dts;
      var t := if dts != NOPTS then dts else pts;
      if t != NOPTS {
        var tUs := Rescale(t, src.tb, MICROS);
        if us[inIdx, outIdx] == NOPTS && anchor != NOPTS {
          us[inIdx, outIdx] := Rescale(anchor, src.tb, MICROS);
        }
        var rebase := us[inIdx, outIdx];
        var cutoff: int64 := INT64_MAX;
        if w.duration > 0.0 {
          cutoff := TsAdd(rebase, Micros(w.duration));
        } else if w.end > 0.0 {
          cutoff := TsAdd(if w.copyTs then 0 else rebase, Micros(w.end));
        }
        if tUs >= cutoff {
          return None;
        }
        if !w.copyTs {
          var off := Rescale(rebase, MICROS, src.tb);
          if pts != NOPTS { pts := TsSub(pts, off); }
          if dts != NOPTS { dts := TsSub(dts, off); }
        }
      }
      if duration <= 0 {
        match src.pace {
          case FrameRate(rate) => duration := Rescale(1, Ratio(rate.den, rate.num), src.tb);
          case SampleBlocks(sampleRate, frameSize) =>
            duration := Rescale(frameSize, Ratio(1, sampleRate), src.tb);
          case Unpaced =>
        }
      }
      if pts != NOPTS { pts := Rescale(pts, src.tb, src.outTb); }
      if dts != NOPTS { dts := Rescale(dts, src.tb, src.outTb); }
      if duration > 0 { duration := Rescale(duration, src.tb, src.outTb); }
      out := Some(CopyPkt(Stamps(pts, dts), duration));
    }
  }

  // ---- the window over an input ---------------------------------------------------

  // A packet of the input, in the order the demuxer delivered them, and whether the pair copies
  // its stream.
  datatype Arrival = Arrival(stream: nat, copied: bool, at: Stamps)

  ghost predicate ValidRun(tbs: seq<Ratio>, run: seq<Arrival>) {
    (forall tb <- tbs :: Positive(tb)) && (forall a <- run :: a.stream < |tbs|)
  }

  /** The pair's rebase when the first k packets of the input have been seen. */
  function RebaseAfter(tbs: seq<Ratio>, run: seq<Arrival>, k: nat): int64
    requires k <= |run| && ValidRun(tbs, run)
  {
    if k == 0 then NOPTS
    else if !run[k - 1].copied then RebaseAfter(tbs, run, k - 1)
    else Captured(RebaseAfter(tbs, run, k - 1), tbs[run[k - 1].stream], run[k - 1].at)
  }

  predicate KeptAt(w: Window, tbs: seq<Ratio>, run: seq<Arrival>, k: nat)
    requires k < |run| && ValidRun(tbs, run)
  {
    run[k].copied && Kept(w, RebaseAfter(tbs, run, k + 1), tbs[run[k].stream], run[k].at)
  }

  /** A stamp whose microsecond value fits in 64 bits and is not the unknown one. */
  predicate Representable(tb: Ratio, t: int64)
    requires Positive(tb)
  {
    INT64_MIN < Exact(t, tb, MICROS) <= INT64_MAX
  }

  /** From the pair's first timed packet on the rebase, and so the cutoff, never moves. */
  lemma {:induction false} RebaseIsFixed(tbs: seq<Ratio>, run: seq<Arrival>, i: nat, j: nat)
    requires i < j <= |run| && ValidRun(tbs, run)
    requires run[i].copied && Timed(run[i].at) && Representable(tbs[run[i].stream], Anchor(run[i].at))
    ensures RebaseAfter(tbs, run, j) == RebaseAfter(tbs, run, i + 1) != NOPTS
  {
    if j > i + 1 {
      RebaseIsFixed(tbs, run, i, j - 1);
    }
  }

  /** Stream s is copied, carries a representable dts on every packet, and they never step back. */
  ghost predicate DecodeOrdered(tbs: seq<Ratio>, run: seq<Arrival>, s: nat)
    requires ValidRun(tbs, run) && s < |tbs|
  {
    && (forall k :: 0 <= k < |run| && run[k].stream == s ==>
          && run[k].copied && run[k].at.dts != NOPTS
          && Representable(tbs[s], run[k].at.dts) && Representable(tbs[s], Anchor(run[k].at)))
    && (forall i, j :: 0 <= i < j < |run| && run[i].stream == s && run[j].stream == s ==>
          run[i].at.dts <= run[j].at.dts)
  }

  /** The cut is decode-closed: whatever precedes a kept packet in decode order is kept too,
      so every packet it can reference survives with it. */
  lemma KeptIsDecodeClosed(w: Window, tbs: seq<Ratio>, run: seq<Arrival>, i: nat, j: nat)
    requires i < j < |run| && ValidRun(tbs, run)
    requires run[i].stream == run[j].stream && DecodeOrdered(tbs, run, run[j].stream)
    requires KeptAt(w, tbs, run, j)
    ensures KeptAt(w, tbs, run, i)
  {
    RebaseIsFixed(tbs, run, i, j + 1);
    ExactMonotone(run[i].at.dts, run[j].at.dts, tbs[run[i].stream], MICROS);
  }

  // ---- where a kept packet lands --------------------------------------------------

  /** Nothing on this stamp's way to the output saturates or turns into the unknown stamp. */
  predicate Unsaturated(w: Window, rebase: int64, src: Source, t: int64)
    requires src.Valid()
  {
    var off := if w.copyTs then 0 else Exact(rebase, MICROS, src.tb);
    && t != NOPTS && InRange(off) && INT64_MIN < t - off <= INT64_MAX
    && INT64_MIN < Exact(t - off, src.tb, src.outTb) <= INT64_MAX
  }

  /** Where a stamp belongs on the output's clock, in seconds. */
  function Due(w: Window, rebase: int64, src: Source, t: int64): real
    requires src.Valid()
  {
    InSeconds(t, src.tb) - (if w.copyTs then 0.0 else InSeconds(rebase, MICROS))
  }

  /** How far from there it may land: half an output tick, and unless the source's clock is kept
      half a source tick for the rebase. */
  function Slack(w: Window, src: Source): real
    requires src.Valid()
  {
    InSeconds(1, src.outTb) / 2.0 + (if w.copyTs then 0.0 else InSeconds(1, src.tb) / 2.0)
  }

  /** Every stamp lands that close to its source time, less the pair's rebase unless copy_ts. */
  lemma LandsNearSourceTime(w: Window, rebase: int64, src: Source, t: int64)
    requires src.Valid() && Unsaturated(w, rebase, src, t)
    ensures Gap(InSeconds(Landed(w, rebase, src, true, t), src.outTb), Due(w, rebase, src, t)) <= Slack(w, src)
  {
    if w.copyTs {
      RescaleError(t, src.tb, src.outTb);
    } else {
      ZeroBasedLanding(w, rebase, src, t);
    }
  }

  lemma ZeroBasedLanding(w: Window, rebase: int64, src: Source, t: int64)
    requires src.Valid() && !w.copyTs && Unsaturated(w, rebase, src, t)
    ensures Gap(InSeconds(Landed(w, rebase, src, true, t), src.outTb), Due(w, rebase, src, t)) <= Slack(w, src)
  {
    hide Exact;
    var off := Exact(rebase, MICROS, src.tb);
    RescaleError(rebase, MICROS, src.tb);
    RescaleError(t - off, src.tb, src.outTb);
    var tick := src.tb.num as real / src.tb.den as real;
    assert InSeconds(t - off, src.tb) == InSeconds(t, src.tb) - InSeconds(off, src.tb);
  }

  /** Each stamp of a packet lands for itself: its pts near its pts, its dts near its dts, and an unknown one
      stays unknown. */
  lemma EachStampLands(w: Window, rebase: int64, src: Source, p: Stamps)
    requires src.Valid() && Timed(p)
    ensures var out := LandedStamps(w, rebase, src, p);
      && (Unsaturated(w, rebase, src, p.pts) ==>
            Gap(InSeconds(out.pts, src.outTb), Due(w, rebase, src, p.pts)) <= Slack(w, src))
      && (Unsaturated(w, rebase, src, p.dts) ==>
            Gap(InSeconds(out.dts, src.outTb), Due(w, rebase, src, p.dts)) <= Slack(w, src))
      && (p.pts == NOPTS ==> out.pts == NOPTS) && (p.dts == NOPTS ==> out.dts == NOPTS)
  {
    hide Landed, Due, Slack;
    if Unsaturated(w, rebase, src, p.pts) { LandsNearSourceTime(w, rebase, src, p.pts); }
    if Unsaturated(w, rebase, src, p.dts) { LandsNearSourceTime(w, rebase, src, p.dts); }
    UnknownLands(w, rebase, src);
  }

  lemma UnknownLands(w: Window, rebase: int64, src: Source)
    requires src.Valid()
    ensures Landed(w, rebase, src, true, NOPTS) == NOPTS && Landed(w, rebase, src, false, NOPTS) == NOPTS
  {}

  /** A packet without stamps passes every window, decides nothing and lands without them. */
  lemma UntimedPasses(w: Window, rebase: int64, src: Source, p: Stamps)
    requires src.Valid() && p == Stamps(NOPTS, NOPTS)
    ensures Kept(w, rebase, src.tb, p) && Captured(rebase, src.tb, p) == rebase && LandedStamps(w, rebase, src, p) == p
  {
    UnknownLands(w, rebase, src);
  }

  /** The packet that brings the rebase is presented, or if it has no pts decoded, at the output's zero. */
  lemma FirstLandsAtZero(w: Window, src: Source, p: Stamps)
    requires src.Valid() && !w.copyTs && Timed(p)
    requires var t := if p.pts != NOPTS then p.pts else p.dts;
      Representable(src.tb, t) && Unsaturated(w, Captured(NOPTS, src.tb, p), src, t)
    ensures var out := LandedStamps(w, Captured(NOPTS, src.tb, p), src, p);
      Gap(InSeconds(if p.pts != NOPTS then out.pts else out.dts, src.outTb), 0.0)
        <= Slack(w, src) + InSeconds(1, MICROS) / 2.0
  {
    var t := if p.pts != NOPTS then p.pts else p.dts;
    hide Exact, Landed, Slack;
    LandsNearSourceTime(w, Captured(NOPTS, src.tb, p), src, t);
    RescaleError(t, src.tb, MICROS);
  }

  /** A missing duration is a frame, or a block of samples, to within half a tick of the source. */
  lemma FilledLasts(src: Source, duration: int64)
    requires src.Valid()
    ensures duration > 0 ==> FilledDuration(src, duration) == duration
    ensures duration <= 0 ==> match src.pace
      case FrameRate(rate) => InRange(Exact(1, Ratio(rate.den, rate.num), src.tb)) ==>
        Gap(InSeconds(FilledDuration(src, duration), src.tb), rate.den as real / rate.num as real)
          <= InSeconds(1, src.tb) / 2.0
      case SampleBlocks(sampleRate, frameSize) => InRange(Exact(frameSize, Ratio(1, sampleRate), src.tb)) ==>
        Gap(InSeconds(FilledDuration(src, duration), src.tb), frameSize as real / sampleRate as real)
          <= InSeconds(1, src.tb) / 2.0
      case Unpaced => FilledDuration(src, duration) == duration
  {
    hide Exact;
    match src.pace
    case FrameRate(rate) => RescaleError(1, Ratio(rate.den, rate.num), src.tb);
    case SampleBlocks(sampleRate, frameSize) =>
      RescaleError(frameSize, Ratio(1, sampleRate), src.tb);
      Share(frameSize, sampleRate);
    case Unpaced =>
  }

  lemma Share(n: int, rate: int)
    requires rate > 0
    ensures InSeconds(n, Ratio(1, rate)) == n as real / rate as real
  {}

  /** And what there is of it lands within half a tick of the output. */
  lemma DurationLands(src: Source, duration: int64)
    requires src.Valid()
    ensures var d := FilledDuration(src, duration);
      && (d <= 0 ==> LandedDuration(src, duration) == d)
      && (d > 0 && InRange(Exact(d, src.tb, src.outTb)) ==>
            Gap(InSeconds(LandedDuration(src, duration), src.outTb), InSeconds(d, src.tb))
              <= InSeconds(1, src.outTb) / 2.0)
  {
    hide Exact, FilledDuration;
    RescaleError(FilledDuration(src, duration), src.tb, src.outTb);
  }

  /** Two streams of one pair share the rebase, so their distance in time survives the copy. */
  lemma OffsetsArePreserved(w: Window, rebase: int64, a: Source, b: Source, s: int64, t: int64)
    requires a.Valid() && b.Valid()
    requires Unsaturated(w, rebase, a, s) && Unsaturated(w, rebase, b, t)
    ensures Gap(InSeconds(Landed(w, rebase, a, true, s), a.outTb) - InSeconds(Landed(w, rebase, b, true, t), b.outTb),
                InSeconds(s, a.tb) - InSeconds(t, b.tb)) <= Slack(w, a) + Slack(w, b)
  {
    LandsNearSourceTime(w, rebase, a, s);
    LandsNearSourceTime(w, rebase, b, t);
  }

  /** Rebase and rescale never reorder two stamps of a stream: dts order and dts <= pts survive. */
  lemma LandingKeepsOrder(w: Window, rebase: int64, src: Source, timed: bool, s: int64, t: int64)
    requires src.Valid() && s <= t
    requires Unsaturated(w.(copyTs := w.copyTs || !timed), rebase, src, s)
    requires Unsaturated(w.(copyTs := w.copyTs || !timed), rebase, src, t)
    ensures Landed(w, rebase, src, timed, s) <= Landed(w, rebase, src, timed, t)
  {
    var off := if timed && !w.copyTs then Exact(rebase, MICROS, src.tb) else 0;
    ExactMonotone(s - off, t - off, src.tb, src.outTb);
  }
}
