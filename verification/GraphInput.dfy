/** One graph input: the seek window over its decoded frames, and the pad closing under them. */
module GraphInput {
  import opened Timeline

  datatype Frame = Frame(best: int64, pts: int64) {
    /** The decoder's best effort, or the stamp itself. */
    function Time(): int64 {
      if best != NOPTS then best else pts
    }
  }

  // What the graph answers to a frame: a pad may be told that the graph is through with it.
  datatype Fate = Taken | Finished | Refused

  /** 64-bit subtraction as the machine does it. */
  function Difference(a: int64, b: int64): (r: int64)
    ensures InRange(a - b) ==> r == a - b
  {
    var d := a - b;
    if d > INT64_MAX then d - 0x1_0000_0000_0000_0000 else if d < INT64_MIN then d + 0x1_0000_0000_0000_0000 else d
  }

  /** The input's requested start (NOPTS when there is none) and the two time bases a frame is
      measured in: its stream's, and the one the graph source was declared with. */
  datatype Start = Start(us: int64, accurate: bool, tb: Ratio, sourceTb: Ratio) {
    predicate Valid() {
      Positive(tb)
    }

    predicate Seeks(f: Frame) {
      us != NOPTS && f.Time() != NOPTS
    }

    function Tick(): int64
      requires Valid()
    {
      Rescale(us, MICROS, tb)
    }

    /** Decoded only to get to the requested start. */
    predicate Drops(f: Frame)
      requires Valid()
    {
      Seeks(f) && accurate && f.Time() < Tick()
    }

    function RebaseAfter(rebase: int64, f: Frame): int64
      requires Valid()
    {
      if Seeks(f) && !Drops(f) && rebase == NOPTS then (if accurate then Tick() else f.Time()) else rebase
    }

    /** A frame's position on a clip that starts at `origin`, still in stream ticks. */
    function Position(origin: int64, f: Frame): int64 {
      if Seeks(f) && f.pts != NOPTS then Difference(f.Time(), origin) else f.pts
    }

    function ToSource(t: int64): int64
      requires Valid()
    {
      if Positive(sourceTb) && tb.num * sourceTb.den != sourceTb.num * tb.den && t != NOPTS
      then Rescale(t, tb, sourceTb)
      else t
    }

    /** The rebase after all these frames. */
    function Captured(frames: seq<Frame>): int64
      requires Valid()
    {
      if frames == [] then NOPTS
      else RebaseAfter(Captured(frames[..|frames| - 1]), frames[|frames| - 1])
    }

    /** What one fixed origin makes of the frames: the stamps of those that are not dropped. */
    function Landed(origin: int64, frames: seq<Frame>): seq<int64>
      requires Valid()
    {
      if frames == [] then []
      else
        var last := frames[|frames| - 1];
        Landed(origin, frames[..|frames| - 1])
        + (if Drops(last) then [] else [ToSource(Position(origin, last))])
    }
  }

  class Pad {
    const start: Start
    var rebase: int64
    var closed: bool
    var entered: seq<int64>        // the stamps of the frames handed to the graph
    ghost var offered: seq<Frame>  // the frames that came while the pad was open
    ghost var seen: seq<Frame>     // and all of them
    ghost var refusals: nat        // how many the graph refused
    ghost var ended: bool          // closed at the end of its input, not by the graph

    ghost predicate Valid()
      reads this
    {
      && start.Valid() && offered <= seen && (!closed ==> offered == seen)
      && rebase == start.Captured(seen)
      // whenever each frame came, all of them landed against one shared origin
      && entered == start.Landed(start.Captured(offered), offered)
    }

    constructor (start: Start)
      requires start.Valid()
      ensures Valid() && this.start == start && !closed && seen == [] && entered == []
      ensures refusals == 0 && !ended
    {
      this.start := start;
      rebase, closed, entered, offered, seen := NOPTS, false, [], [], [];
      refusals, ended := 0, false;
    }

    /** push_frame. A graph that has finished with the pad closes it and is no failure. */
    method Push(f: Frame, fate: Fate) returns (ok: bool)
      requires Valid()
      modifies this
      ensures Valid() && seen == old(seen) + [f]
      ensures closed <==> old(closed) || (!start.Drops(f) && fate.Finished?)
      ensures ok <==> old(closed) || start.Drops(f) || !fate.Refused?
      ensures refusals == old(refusals) + (if ok then 0 else 1) && ended == old(ended)
      ensures old(closed) ==> entered == old(entered) && offered == old(offered)
      ensures !old(closed) ==> offered == old(offered) + [f]
    {
      hide start.ToSource, start.Tick, start.Captured, start.Landed, Difference;
      CapturedStep(start, seen, f);
      LandedStep(start, offered, f);
      var pts := f.pts;
      seen := seen + [f];
      if !closed {
        offered := offered + [f];
      }
      if start.us != NOPTS {
        var t := if f.best != NOPTS then f.best else f.pts;
        if t != NOPTS {
          if start.accurate && t < start.Tick() {
            return true;
          }
          if rebase == NOPTS {
            rebase := if start.accurate then start.Tick() else t;
          }
          if pts != NOPTS { pts := Difference(t, rebase); }
        }
      }
      if closed {
        return true;
      }
      entered := entered + [start.ToSource(pts)];
      if fate.Finished? {
        closed := true;
      }
      ok := !fate.Refused?;
      refusals := refusals + (if ok then 0 else 1);
    }

    /** At the end of its input the source is closed, whatever the graph answers to that. */
    method Close()
      requires Valid()
      modifies `closed, `ended
      ensures Valid() && closed && ended
    {
      closed, ended := true, true;
    }
  }

  // ---- what the run of frames implies ---------------------------------------------

  /** A later frame never moves the ones before it: either the origin was already captured, or
      no earlier frame depends on it. */
  lemma {:induction false} OriginIsSettled(s: Start, frames: seq<Frame>, f: Frame)
    requires s.Valid()
    ensures s.Landed(s.Captured(frames + [f]), frames) == s.Landed(s.Captured(frames), frames)
  {
    CapturedStep(s, frames, f);
    if s.Captured(frames) == NOPTS != s.Captured(frames + [f]) {
      UncapturedIgnoresOrigin(s, frames, s.Captured(frames + [f]));
    }
  }

  lemma CapturedStep(s: Start, frames: seq<Frame>, f: Frame)
    requires s.Valid()
    ensures s.Captured(frames + [f]) == s.RebaseAfter(s.Captured(frames), f)
  {
    assert (frames + [f])[..|frames|] == frames;
  }

  lemma LandedStep(s: Start, frames: seq<Frame>, f: Frame)
    requires s.Valid()
    ensures s.Landed(s.Captured(frames + [f]), frames + [f])
         == s.Landed(s.Captured(frames), frames)
          + (if s.Drops(f) then [] else [s.ToSource(s.Position(s.Captured(frames + [f]), f))])
  {
    assert (frames + [f])[..|frames|] == frames;
    OriginIsSettled(s, frames, f);
  }

  lemma {:induction false} UncapturedIgnoresOrigin(s: Start, frames: seq<Frame>, origin: int64)
    requires s.Valid() && s.Captured(frames) == NOPTS && (s.us != NOPTS && s.accurate ==> s.Tick() != NOPTS)
    ensures s.Landed(origin, frames) == s.Landed(NOPTS, frames)
  {
    if frames != [] {
      UncapturedIgnoresOrigin(s, frames[..|frames| - 1], origin);
    }
  }

  ghost predicate IsFirst(s: Start, frames: seq<Frame>, first: nat)
    requires s.Valid() && first < |frames|
  {
    && s.Seeks(frames[first]) && !s.Drops(frames[first])
    && forall j :: 0 <= j < first ==> !s.Seeks(frames[j]) || s.Drops(frames[j])
  }

  /** The clip's zero: the requested start itself, or in fast mode the frame actually landed on.
      Nothing that comes later moves it. */
  lemma {:induction false} FirstFrameDecides(s: Start, frames: seq<Frame>, first: nat)
    requires s.Valid() && first < |frames| && IsFirst(s, frames, first)
    ensures s.Captured(frames) == if s.accurate then s.Tick() else frames[first].Time()
  {
    var before := frames[..|frames| - 1];
    if first < |before| {
      FirstFrameDecides(s, before, first);
    } else {
      NothingCaptured(s, before);
    }
  }

  lemma {:induction false} NothingCaptured(s: Start, frames: seq<Frame>)
    requires s.Valid() && forall f <- frames :: !s.Seeks(f) || s.Drops(f)
    ensures s.Captured(frames) == NOPTS
  {
    if frames != [] {
      NothingCaptured(s, frames[..|frames| - 1]);
    }
  }

  /** Which frames are not dropped on the way to the requested start. */
  function Kept(s: Start, frames: seq<Frame>): (ks: seq<nat>)
    requires s.Valid()
    ensures forall i :: 0 <= i < |ks| ==> ks[i] < |frames|
  {
    if frames == [] then []
    else
      var n := |frames| - 1;
      Kept(s, frames[..n]) + (if s.Drops(frames[n]) then [] else [n])
  }

  lemma {:induction false} KeptIsExact(s: Start, frames: seq<Frame>)
    requires s.Valid()
    ensures forall k :: 0 <= k < |frames| ==> (k in Kept(s, frames) <==> !s.Drops(frames[k]))
    ensures forall a, b :: 0 <= a < b < |Kept(s, frames)| ==> Kept(s, frames)[a] < Kept(s, frames)[b]
  {
    hide Start.Drops;
    if frames != [] {
      var n := |frames| - 1;
      KeptIsExact(s, frames[..n]);
      assert forall k :: 0 <= k < n ==> frames[..n][k] == frames[k];
    }
  }

  /** The graph gets exactly the frames that are not dropped, in order, each at its own position. */
  lemma {:induction false} LandedIsExact(s: Start, origin: int64, frames: seq<Frame>)
    requires s.Valid()
    ensures |s.Landed(origin, frames)| == |Kept(s, frames)|
    ensures forall i :: 0 <= i < |Kept(s, frames)| ==>
      s.Landed(origin, frames)[i] == s.ToSource(s.Position(origin, frames[Kept(s, frames)[i]]))
  {
    hide Start.Drops, Start.Position, Start.ToSource;
    if frames != [] {
      LandedIsExact(s, origin, frames[..|frames| - 1]);
    }
  }

  /** Frame n is kept and stamped, at a distance from the clip's zero that a stamp can hold. */
  predicate Lands(s: Start, frames: seq<Frame>, n: nat)
    requires s.Valid()
  {
    && n < |frames| && s.Seeks(frames[n]) && !s.Drops(frames[n]) && frames[n].pts != NOPTS
    && InRange(frames[n].Time() - s.Captured(frames))
  }

  /** The requested start to within half a tick, and a stamp in the source's own time base to within half a tick
      of that; a source that was declared without one takes it as it is. */
  lemma TicksAreNear(s: Start, t: int64)
    requires s.Valid()
    ensures s.us != NOPTS && InRange(Exact(s.us, MICROS, s.tb)) ==>
      Gap(InSeconds(s.Tick(), s.tb), InSeconds(s.us, MICROS)) <= InSeconds(1, s.tb) / 2.0
    ensures Positive(s.sourceTb) && t != NOPTS && InRange(Exact(t, s.tb, s.sourceTb)) ==>
      Gap(InSeconds(s.ToSource(t), s.sourceTb), InSeconds(t, s.tb)) <= InSeconds(1, s.sourceTb) / 2.0
    ensures t == NOPTS || !Positive(s.sourceTb) ==> s.ToSource(t) == t
  {
    hide Exact;
    RescaleError(s.us, MICROS, s.tb);
    if Positive(s.sourceTb) {
      RescaleError(t, s.tb, s.sourceTb);
      if s.tb.num * s.sourceTb.den == s.sourceTb.num * s.tb.den {
        SameTicks(t, s.tb, s.sourceTb);
      }
    }
  }

  lemma SameTicks(t: int, a: Ratio, b: Ratio)
    requires Positive(a) && Positive(b) && a.num * b.den == b.num * a.den
    ensures InSeconds(t, a) == InSeconds(t, b) && InSeconds(1, b) >= 0.0
  {
    assert a.num as real * b.den as real == b.num as real * a.den as real;
    assert a.num as real / a.den as real == b.num as real / b.den as real;
  }

  /** Only an accurate seek drops frames, and exactly those before the tick it starts at; the decoder's best
      effort decides, and the stamp itself only without one. */
  lemma DropsIff(s: Start, f: Frame)
    requires s.Valid()
    ensures s.us == NOPTS || !s.accurate || f == Frame(NOPTS, NOPTS) ==> !s.Drops(f)
    ensures s.us != NOPTS && s.accurate && f.best != NOPTS ==> (s.Drops(f) <==> f.best < s.Tick())
    ensures s.us != NOPTS && s.accurate && f.best == NOPTS != f.pts ==> (s.Drops(f) <==> f.pts < s.Tick())
  {}

  lemma BestEffortWins(s: Start, origin: int64, best: int64, p: int64, q: int64)
    requires s.us != NOPTS && NOPTS !in [best, p, q]
    ensures s.Position(origin, Frame(best, p)) == s.Position(origin, Frame(best, q)) == Difference(best, origin)
    ensures s.Position(origin, Frame(best, NOPTS)) == NOPTS
  {}

  /** A frame's position is its distance from the clip's zero exactly when that fits in 64 bits. */
  lemma PositionIsDistanceIff(s: Start, origin: int64, f: Frame)
    requires s.Seeks(f) && f.pts != NOPTS
    ensures s.Position(origin, f) == f.Time() - origin <==> InRange(f.Time() - origin)
  {}

  /** Two frames of an input seeked without accuracy, one at each end of time: the second, which is
      later, is put before the first. */
  lemma FarFrameWraps()
    ensures var (s, first, second) :=
        (Start(0, false, MICROS, MICROS), Frame(-INT64_MAX, -INT64_MAX), Frame(INT64_MAX, INT64_MAX));
      s.Landed(s.Captured([first, second]), [first, second]) == [0, -2]
  {
    var (s, first, second) :=
      (Start(0, false, MICROS, MICROS), Frame(-INT64_MAX, -INT64_MAX), Frame(INT64_MAX, INT64_MAX));
    CapturedStep(s, [], first);
    CapturedStep(s, [first], second);
    LandedStep(s, [], first);
    LandedStep(s, [first], second);
    assert [] + [first] == [first] && [first] + [second] == [first, second];
  }

  /** So a clip keeps its frames' spacing exactly, and one cut accurately starts at zero or later. */
  lemma ClipKeepsSpacing(s: Start, frames: seq<Frame>, first: nat, j: nat, k: nat)
    requires s.Valid() && first < |frames| && IsFirst(s, frames, first)
    requires Lands(s, frames, j) && Lands(s, frames, k)
    ensures s.Position(s.Captured(frames), frames[k]) - s.Position(s.Captured(frames), frames[j])
         == frames[k].Time() - frames[j].Time()
    ensures !s.accurate ==> s.Position(s.Captured(frames), frames[k]) == frames[k].Time() - frames[first].Time()
    ensures s.accurate ==> s.Position(s.Captured(frames), frames[k]) == frames[k].Time() - s.Tick() >= 0
  {
    FirstFrameDecides(s, frames, first);
  }
}
