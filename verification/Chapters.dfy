/** Carrying an input's chapter list across an output window. */
module Chapters {
  import opened Timeline
  import opened Windows

  // A stretch of time, [lo, hi), in microseconds.
  datatype Span = Span(lo: int, hi: int)

  datatype Chapter = Chapter(id: int64, tb: Ratio, start: int64, end: int64, title: string) {
    function Micros(): Span
      requires Positive(tb)
    {
      Span(Rescale(start, tb, MICROS), Rescale(end, tb, MICROS))
    }
  }

  ghost predicate Valid(cs: seq<Chapter>) {
    forall c <- cs :: Positive(c.tb)
  }

  // The output window on the source timeline.
  datatype Bounds = Bounds(seek: int64, cutoff: int64, copyTs: bool) {
    predicate Valid() {
      0 <= seek && 0 <= cutoff
    }

    function Shift(): int {
      if copyTs then 0 else seek
    }
  }

  /** The window of one output over an input's chapters. */
  function BoundsOf(w: Window, seek: Seek): (b: Bounds)
    ensures b.Valid()
  {
    Bounds(seek.Base(), if w.Bounded() then w.Cut(seek.Base()) else INT64_MAX, w.copyTs)
  }

  /** The two tests that drop a chapter wholly outside the window. */
  predicate Meets(s: Span, b: Bounds) {
    s.lo < b.cutoff && b.seek < s.hi
  }

  /** The chapter's stretch, cut to the window and put on the output's clock. */
  function Clipped(s: Span, b: Bounds): Span {
    Span(Max(s.lo, b.seek) - b.Shift(), Min(s.hi, b.cutoff) - b.Shift())
  }

  /** One carried chapter: the clipped stretch, back in the chapter's own time base. */
  function Carry(c: Chapter, b: Bounds): Chapter
    requires Positive(c.tb) && b.Valid() && Meets(c.Micros(), b)
  {
    var s := Clipped(c.Micros(), b);
    c.(start := Rescale(s.lo, MICROS, c.tb), end := Rescale(s.hi, MICROS, c.tb))
  }

  /** The indices of the stretches the window keeps, in order. */
  function Selected(ss: seq<Span>, b: Bounds): (ks: seq<nat>)
    ensures forall k <- ks :: k < |ss| && Meets(ss[k], b)
  {
    if ss == [] then []
    else
      var n := |ss| - 1;
      Selected(ss[..n], b) + (if Meets(ss[n], b) then [n] else [])
  }

  ghost predicate Increasing(ks: seq<nat>) {
    forall i, j :: 0 <= i < j < |ks| ==> ks[i] < ks[j]
  }

  /** Selected is exactly the stretches that meet the window, once each, in order. */
  lemma {:induction false} SelectedIsExact(ss: seq<Span>, b: Bounds)
    ensures forall i :: 0 <= i < |ss| ==> (Meets(ss[i], b) <==> i in Selected(ss, b))
    ensures Increasing(Selected(ss, b))
  {
    if ss != [] {
      var n := |ss| - 1;
      SelectedIsExact(ss[..n], b);
      assert forall i :: 0 <= i < n ==> ss[..n][i] == ss[i];
      var ks := Selected(ss[..n], b);
      assert forall i :: 0 <= i < |ks| ==> ks[i] in ks;
    }
  }

  function Spans(cs: seq<Chapter>): seq<Span>
    requires Valid(cs)
  {
    seq(|cs|, i requires 0 <= i < |cs| => cs[i].Micros())
  }

  /** The carried list. */
  function Carried(cs: seq<Chapter>, b: Bounds): seq<Chapter>
    requires Valid(cs) && b.Valid()
  {
    if cs == [] then []
    else
      var n := |cs| - 1;
      Carried(cs[..n], b) + (if Meets(cs[n].Micros(), b) then [Carry(cs[n], b)] else [])
  }

  /** Entry k of the carried list is the k-th chapter that meets the window, clipped. */
  lemma {:induction false} CarriedIsSelected(cs: seq<Chapter>, b: Bounds)
    requires Valid(cs) && b.Valid()
    ensures var ks := Selected(Spans(cs), b);
      && |Carried(cs, b)| == |ks|
      && forall k :: 0 <= k < |ks| ==> ks[k] in ks && Carried(cs, b)[k] == Carry(cs[ks[k]], b)
  {
    if cs != [] {
      var n := |cs| - 1;
      CarriedIsSelected(cs[..n], b);
      assert Spans(cs)[..n] == Spans(cs[..n]);
    }
  }

  /** An output context, as far as its chapter list goes. */
  class Output {
    var chapters: seq<Chapter>

    constructor ()
      ensures chapters == []
    {
      chapters := [];
    }

    /** The chapters of one output: the window is worked out from the job, and may turn out empty. */
    method CarryChapters(src: seq<Chapter>, w: Window, seek: Seek)
      requires Valid(src)
      modifies this
      ensures chapters == old(chapters) + Carried(src, BoundsOf(w, seek))
    {
      var seek0 := if seek.SeekTo? then seek.us else 0;
      var cutoff: int64 := INT64_MAX;
      if w.duration > 0.0 {
        cutoff := seek0 + Windows.Micros(w.duration);
      } else if w.end > 0.0 {
        cutoff := (if w.copyTs then 0 else seek0) + Windows.Micros(w.end);
      }
      assert Bounds(seek0, cutoff, w.copyTs) == BoundsOf(w, seek);
      CopyChapters(src, Bounds(seek0, cutoff, w.copyTs));
    }

    /** copy_chapters. The window may be empty: nothing in the source asks otherwise. */
    method CopyChapters(src: seq<Chapter>, b: Bounds)
      requires Valid(src) && b.Valid()
      modifies this
      ensures chapters == old(chapters) + Carried(src, b)
    {
      hide Rescale;
      for i := 0 to |src|
        invariant chapters == old(chapters) + Carried(src[..i], b)
      {
        var sc := src[i];
        assert src[..i + 1][..i] == src[..i];
        var startUs: int64 := Rescale(sc.start, sc.tb, MICROS);
        var endUs: int64 := Rescale(sc.end, sc.tb, MICROS);
        if startUs >= b.cutoff || endUs <= b.seek {
          continue;
        }
        if endUs > b.cutoff { endUs := b.cutoff; }
        if startUs < b.seek { startUs := b.seek; }
        if !b.copyTs {
          startUs, endUs := startUs - b.seek, endUs - b.seek;
        }
        chapters := chapters +
          [sc.(start := Rescale(startUs, MICROS, sc.tb), end := Rescale(endUs, MICROS, sc.tb))];
      }
      assert src[..|src|] == src;
    }
  }

  predicate Inside(s: Span, x: int) {
    s.lo <= x < s.hi
  }

  /** For a window and a chapter that each last some time, the two tests mean "shares an instant". */
  lemma MeetsIsOverlap(s: Span, b: Bounds)
    requires s.lo < s.hi && b.seek < b.cutoff
    ensures Meets(s, b) <==> exists x: int :: Inside(s, x) && Inside(Span(b.seek, b.cutoff), x)
  {
    if Meets(s, b) {
      var x := Max(s.lo, b.seek);
      assert Inside(s, x) && Inside(Span(b.seek, b.cutoff), x);
    }
  }

  /** What is carried is the chapter's own stretch of the window, instant by instant. */
  lemma ClippedIsIntersection(s: Span, b: Bounds, x: int)
    ensures Inside(Clipped(s, b), x - b.Shift()) <==> Inside(s, x) && Inside(Span(b.seek, b.cutoff), x)
  {}

  /** A carried chapter starts before it ends exactly when the window lasts some time. In a window of
      no length it is of no length, and in one that ends before it starts it runs backwards. */
  lemma ClippedForwardIffWindow(s: Span, b: Bounds)
    requires s.lo < s.hi && Meets(s, b)
    ensures Clipped(s, b).lo < Clipped(s, b).hi <==> b.seek < b.cutoff
    ensures Clipped(s, b).lo == Clipped(s, b).hi <==> b.seek == b.cutoff
  {}

  const MICROSECOND: real := 0.000_001

  /** When an output's window lasts some time: it is open, or the bound that counts - a duration
      before an end - is at least a microsecond beyond where the window starts. Only an absolute
      `end` can lie before that. */
  lemma WindowLasts(w: Window, seek: Seek)
    ensures var b := BoundsOf(w, seek);
      b.seek < b.cutoff <==>
        if w.duration > 0.0 then w.duration >= MICROSECOND
        else if w.end > 0.0 then w.end >= ((if w.copyTs then seek.Base() else 0) + 1) as real * MICROSECOND
        else true
    ensures var b := BoundsOf(w, seek);
      b.cutoff < b.seek <==>
        w.duration <= 0.0 && 0.0 < w.end && w.copyTs && w.end < seek.Base() as real * MICROSECOND
  {
    if w.duration > 0.0 {
      WholeMicros(w.duration, 1);
    } else if w.end > 0.0 {
      WholeMicros(w.end, (if w.copyTs then seek.Base() else 0) + 1);
      WholeMicros(w.end, seek.Base());
    }
  }

  lemma WholeMicros(s: Seconds, n: nat)
    ensures Windows.Micros(s) >= n <==> s >= n as real * MICROSECOND
  {
    assert n as real * MICROSECOND * 1_000_000.0 == n as real;
  }

  lemma MillisThereAndBack()
    ensures Rescale(0, Ratio(1, 1000), MICROS) == 0 && Rescale(100_000, Ratio(1, 1000), MICROS) == 100_000_000
    ensures Rescale(60_000_000, MICROS, Ratio(1, 1000)) == 60_000
    ensures Rescale(30_000_000, MICROS, Ratio(1, 1000)) == 30_000
  {}

  lemma CarriedAlone(c: Chapter, b: Bounds)
    requires Positive(c.tb) && b.Valid() && Meets(c.Micros(), b)
    ensures Carried([c], b) == [Carry(c, b)]
  {
    hide Meets, Carry;
    assert [c][..0] == [];
  }

  lemma BackwardsBounds()
    ensures BoundsOf(Window(0.0, 30.0, true), SeekTo(60_000_000)) == Bounds(60_000_000, 30_000_000, true)
  {
    assert Windows.Micros(30.0) == 30_000_000;
  }

  /** A chapter over the first 100 s of an input seeked to 60 s, on an output that ends at source
      time 30 s: it is carried from 60 s back to 30 s. */
  lemma BackwardsChapter(title: string)
    ensures var c := Chapter(1, Ratio(1, 1000), 0, 100_000, title);
      var b := BoundsOf(Window(0.0, 30.0, true), SeekTo(60_000_000));
      Carried([c], b) == [Chapter(1, Ratio(1, 1000), 60_000, 30_000, title)]
  {
    var c := Chapter(1, Ratio(1, 1000), 0, 100_000, title);
    BackwardsBounds();
    MillisThereAndBack();
    var b := Bounds(60_000_000, 30_000_000, true);
    hide Rescale, BoundsOf, Carried;
    CarriedAlone(c, b);
  }

  /** A carried chapter is the clipped stretch to within half a tick, under its own number and title. */
  lemma CarriedLandsNear(c: Chapter, b: Bounds)
    requires Positive(c.tb) && b.Valid() && Meets(c.Micros(), b)
    requires var s := Clipped(c.Micros(), b);
      InRange(Exact(s.lo, MICROS, c.tb)) && InRange(Exact(s.hi, MICROS, c.tb))
    ensures var (s, r) := (Clipped(c.Micros(), b), Carry(c, b));
      && Gap(InSeconds(r.start, c.tb), InSeconds(s.lo, MICROS)) <= InSeconds(1, c.tb) / 2.0
      && Gap(InSeconds(r.end, c.tb), InSeconds(s.hi, MICROS)) <= InSeconds(1, c.tb) / 2.0
      && r.id == c.id && r.tb == c.tb && r.title == c.title
  {
    var s := Clipped(c.Micros(), b);
    hide Exact, InSeconds, Clipped, Chapter.Micros;
    RescaleError(s.lo, MICROS, c.tb);
    RescaleError(s.hi, MICROS, c.tb);
  }

  /** The final rescale can close a short chapter up but never turn it round. */
  lemma CarriedForward(c: Chapter, b: Bounds)
    requires Positive(c.tb) && b.Valid() && Meets(c.Micros(), b)
    requires c.Micros().lo < c.Micros().hi && b.seek < b.cutoff
    requires var s := Clipped(c.Micros(), b);
      InRange(Exact(s.lo, MICROS, c.tb)) && InRange(Exact(s.hi, MICROS, c.tb))
    ensures Carry(c, b).start <= Carry(c, b).end
  {
    var s := Clipped(c.Micros(), b);
    ExactMonotone(s.lo, s.hi, MICROS, c.tb);
  }
}
