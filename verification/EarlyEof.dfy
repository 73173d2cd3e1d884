/** Stopping an input early: what the demux-side threshold can cost a stream-copy lane. */
module EarlyEof {
  import opened Timeline
  import opened Windows
  import opened MuxFixup
  import opened CopyLane

  /** A packet at this time ends the input. Times are microseconds, NOPTS when unknown. */
  predicate Ends(t: int64, inputCutoff: int64) {
    inputCutoff != INT64_MAX && t != NOPTS && t > inputCutoff
  }

  /** A packet's decode time in microseconds, as both the threshold and the lane read it. */
  function Time(tbs: seq<Ratio>, run: seq<Arrival>, k: nat): int64
    requires k < |run| && ValidRun(tbs, run)
  {
    if Timed(run[k].at) then Rescale(DecodeTime(run[k].at), tbs[run[k].stream], MICROS) else NOPTS
  }

  /** Every packet up to and including k is read before the input is ended. */
  ghost predicate IsRead(tbs: seq<Ratio>, run: seq<Arrival>, inputCutoff: int64, k: nat)
    requires k < |run| && ValidRun(tbs, run)
  {
    forall j :: 0 <= j <= k ==> !Ends(Time(tbs, run, j), inputCutoff)
  }

  /** No packet of the input lags an earlier one by more than `lag`. */
  ghost predicate LagsAtMost(tbs: seq<Ratio>, run: seq<Arrival>, lag: nat)
    requires ValidRun(tbs, run)
  {
    forall j, k :: 0 <= j < k < |run| && Time(tbs, run, j) != NOPTS && Time(tbs, run, k) != NOPTS ==>
      Time(tbs, run, j) <= Time(tbs, run, k) + lag
  }

  /** The rebase the pair captures from these packets is at most `ahead` past the input's own base. */
  ghost predicate AheadAtMost(tbs: seq<Ratio>, run: seq<Arrival>, seek: Seek, ahead: int)
    requires ValidRun(tbs, run)
  {
    forall k :: 0 <= k <= |run| ==> RebaseAfter(tbs, run, k) <= seek.Base() + ahead
  }

  /** How far past the input's own base the lane's window reaches when its rebase is `ahead`
      of that base: an absolute `end` does not depend on the rebase at all. */
  function Reach(w: Window, ahead: int): int {
    if w.copyTs && !(w.duration > 0.0) then 0 else ahead
  }

  /** Whatever a copy lane with window w keeps is read before the input is ended, for every input
      whose packets lag, and whose captured rebase lies ahead, by no more than this. */
  ghost predicate LosesNothing(w: Window, seek: Seek, inputCutoff: int64, ahead: int, lag: nat) {
    forall tbs: seq<Ratio>, run: seq<Arrival>, k: nat ::
      (&& k < |run| && ValidRun(tbs, run) && LagsAtMost(tbs, run, lag) && AheadAtMost(tbs, run, seek, ahead)
       && KeptAt(w, tbs, run, k) && Time(tbs, run, k) != NOPTS) ==> IsRead(tbs, run, inputCutoff, k)
  }

  /** The lane's cutoff, measured from the threshold's own idea of it. */
  lemma LaneCutoffIsCutPlusReach(w: Window, seek: Seek, ahead: int)
    requires w.Bounded() && InRange(seek.Base() + ahead)
    ensures LaneCutoff(w, seek.Base() + ahead) == Clamp(w.Cut(seek.Base()) + Reach(w, ahead))
  {}

  lemma LaneCutoffGrows(w: Window, r: int64, s: int64)
    requires r <= s
    ensures LaneCutoff(w, r) <= LaneCutoff(w, s)
  {}

  /** Any threshold at least a second past the window loses nothing while reach and lag
      together stay within that second (and the one microsecond by which "before the cutoff"
      is strict). */
  lemma MarginSuffices(w: Window, seek: Seek, inputCutoff: int64, ahead: int, lag: nat)
    requires w.Bounded() && InRange(seek.Base() + ahead)
    requires w.Cut(seek.Base()) + SECOND <= inputCutoff
    requires Reach(w, ahead) + lag <= SECOND + 1
    ensures LosesNothing(w, seek, inputCutoff, ahead, lag)
  {
    hide Rescale, Window.Cut;
    forall tbs: seq<Ratio>, run: seq<Arrival>, k: nat |
      (&& k < |run| && ValidRun(tbs, run) && LagsAtMost(tbs, run, lag) && AheadAtMost(tbs, run, seek, ahead)
       && KeptAt(w, tbs, run, k) && Time(tbs, run, k) != NOPTS)
      ensures IsRead(tbs, run, inputCutoff, k)
    {
      KeptIsBeforeCut(w, seek, ahead, tbs, run, k);
    }
  }

  lemma KeptIsBeforeCut(w: Window, seek: Seek, ahead: int, tbs: seq<Ratio>, run: seq<Arrival>, k: nat)
    requires w.Bounded() && InRange(seek.Base() + ahead)
    requires k < |run| && ValidRun(tbs, run) && AheadAtMost(tbs, run, seek, ahead)
    requires KeptAt(w, tbs, run, k) && Time(tbs, run, k) != NOPTS
    ensures Time(tbs, run, k) < w.Cut(seek.Base()) + Reach(w, ahead)
  {
    hide Rescale;
    LaneCutoffGrows(w, RebaseAfter(tbs, run, k + 1), seek.Base() + ahead);
    LaneCutoffIsCutPlusReach(w, seek, ahead);
  }

  // ---- and no less will do -----------------------------------------------------------

  /** A packet of the one stream of an input that counts in microseconds. */
  function At(pts: int64, dts: int64): Arrival {
    Arrival(0, true, Stamps(pts, dts))
  }

  /** A three-packet input that shows the margin is needed: the first packet's pts is the rebase, and
      it is decoded early enough to be read; the second runs ahead of the third by the lag; and the
      third is the last the lane keeps. */
  function Straggler(w: Window, seek: Seek, ahead: int, lag: nat): (r: seq<(int, int)>)
    requires w.Bounded()
    ensures |r| == 3
  {
    var (base, last) := (seek.Base() + ahead, w.Cut(seek.Base()) + Reach(w, ahead) - 1);
    [(base, Min(base, Min(last, w.Cut(seek.Base()) + SECOND))), (last + lag, last + lag), (last, last)]
  }

  predicate Stampable(r: seq<(int, int)>) {
    forall i :: 0 <= i < |r| ==> INT64_MIN < r[i].0 < INT64_MAX && INT64_MIN < r[i].1 < INT64_MAX
  }

  lemma InMicros(t: int64)
    ensures Rescale(t, MICROS, MICROS) == t
  {
    RoundNearWhole(t, 1_000_000);
  }

  /** The rebase is the one the first packet brought, and the others' times are their stamps. */
  lemma StragglerRun(run: seq<Arrival>)
    requires |run| == 3 && forall i :: 0 <= i < 3 ==>
      run[i] == At(run[i].at.pts, run[i].at.dts) && run[i].at.pts != NOPTS && run[i].at.dts != NOPTS
    ensures ValidRun([MICROS], run) && RebaseAfter([MICROS], run, 0) == NOPTS
    ensures forall k :: 1 <= k <= 3 ==> RebaseAfter([MICROS], run, k) == run[0].at.pts
    ensures forall k :: 0 <= k < 3 ==> Time([MICROS], run, k) == run[k].at.dts
  {
    hide Rescale;
    InMicros(run[0].at.pts);
    InMicros(run[0].at.dts);
    InMicros(run[1].at.dts);
    InMicros(run[2].at.dts);
    RebaseIsFixedAt(run);
  }

  lemma RebaseIsFixedAt(run: seq<Arrival>)
    requires |run| == 3 && ValidRun([MICROS], run) && forall i :: 0 <= i < 3 ==>
      run[i] == At(run[i].at.pts, run[i].at.dts) && run[i].at.pts != NOPTS && run[i].at.dts != NOPTS
    requires Rescale(run[0].at.pts, MICROS, MICROS) == run[0].at.pts
    ensures forall k :: 1 <= k <= 3 ==> RebaseAfter([MICROS], run, k) == run[0].at.pts
  {
    hide Rescale;
    assert RebaseAfter([MICROS], run, 1) == run[0].at.pts;
    assert RebaseAfter([MICROS], run, 2) == run[0].at.pts;
  }

  /** For one windowed output the threshold is exact: nothing is ever lost if and only if reach
      and lag fit the margin. */
  lemma MarginIsExact(w: Window, seek: Seek, ahead: int, lag: nat)
    requires w.Bounded() && Stampable(Straggler(w, seek, ahead, lag))
    ensures LosesNothing(w, seek, w.Cut(seek.Base()) + SECOND, ahead, lag) <==> Reach(w, ahead) + lag <= SECOND + 1
  {
    hide Rescale, LosesNothing, Window.Cut;
    if Reach(w, ahead) + lag <= SECOND + 1 {
      assert Straggler(w, seek, ahead, lag)[0].0 == seek.Base() + ahead;
      MarginSuffices(w, seek, w.Cut(seek.Base()) + SECOND, ahead, lag);
    } else {
      StragglerIsLost(w, seek, ahead, lag);
    }
  }

  lemma StragglerIsLost(w: Window, seek: Seek, ahead: int, lag: nat)
    requires w.Bounded() && Stampable(Straggler(w, seek, ahead, lag)) && Reach(w, ahead) + lag > SECOND + 1
    ensures !LosesNothing(w, seek, w.Cut(seek.Base()) + SECOND, ahead, lag)
  {
    hide Rescale, Window.Cut, LaneCutoff, RebaseAfter, Time;
    var r := Straggler(w, seek, ahead, lag);
    var run := [At(r[0].0, r[0].1), At(r[1].0, r[1].1), At(r[2].0, r[2].1)];
    StragglerRun(run);
    LaneCutoffIsCutPlusReach(w, seek, ahead);
    StragglerLags(run, seek, ahead, lag);
    assert KeptAt(w, [MICROS], run, 2) by {
      TimeIsDecodeTime(run, 2);
    }
    assert Ends(Time([MICROS], run, 1), w.Cut(seek.Base()) + SECOND);
    assert !IsRead([MICROS], run, w.Cut(seek.Base()) + SECOND, 2);
  }

  lemma TimeIsDecodeTime(run: seq<Arrival>, k: nat)
    requires k < |run| && ValidRun([MICROS], run) && Timed(run[k].at)
    ensures Time([MICROS], run, k) == Rescale(DecodeTime(run[k].at), MICROS, MICROS)
  {
    hide Rescale;
  }

  lemma StragglerLags(run: seq<Arrival>, seek: Seek, ahead: int, lag: nat)
    requires |run| == 3 && ValidRun([MICROS], run)
    requires RebaseAfter([MICROS], run, 0) == NOPTS < seek.Base() + ahead
    requires forall k :: 1 <= k <= 3 ==> RebaseAfter([MICROS], run, k) == seek.Base() + ahead
    requires Time([MICROS], run, 0) <= Time([MICROS], run, 2) <= Time([MICROS], run, 1)
    requires Time([MICROS], run, 1) == Time([MICROS], run, 2) + lag
    ensures LagsAtMost([MICROS], run, lag) && AheadAtMost([MICROS], run, seek, ahead)
  {
    hide RebaseAfter, Time;
  }
}
