/** The encode lane's last step: packets out of an encoder, back on the source's timeline under
    copy_ts, cut at the output window, and into the muxer's time base. The same window was already
    applied to the frames going in; this module says when the two agree. */
module EncoderLane {
  import opened Basics
  import opened Timeline
  import opened Windows
  import opened MuxFixup
  import opened CopyLane
  import opened Sinks

  // What the encoder has ready after a frame or a flush, and whether it failed after that.
  datatype Ready = Ready(accepted: bool, packets: seq<CopyPkt>, sound: bool)

  /** One encoded stream: its output's window, where the job's seek starts, and its pace. */
  datatype Stream = Stream(w: Window, seekOffset: SpecMicros, src: Source) {
    predicate Valid() {
      src.Valid()
    }

    function Shift(): int64
      requires Valid()
    {
      if w.copyTs then Rescale(seekOffset, MICROS, src.tb) else 0
    }

    /** A stamp back on the output's own timeline. */
    function Restored(t: int64): int64
      requires Valid()
    {
      if w.copyTs && t != NOPTS then TsAdd(t, Shift()) else t
    }

    /** Past the output window, by the packet's own time. */
    predicate Dropped(p: CopyPkt)
      requires Valid()
    {
      var (cutoff, t) := (w.OutputCutoff(seekOffset), Restored(p.at.pts));
      cutoff != INT64_MAX && t != NOPTS && Rescale(t, src.tb, MICROS) >= cutoff
    }

    function ToMuxer(p: CopyPkt): CopyPkt
      requires Valid()
    {
      var (pts, dts) := (Restored(p.at.pts), Restored(p.at.dts));
      CopyPkt(Stamps(RescaleStamp(pts, src.tb, src.outTb), RescaleStamp(dts, src.tb, src.outTb)),
              LandedDuration(src, p.duration))
    }

    /** What of these packets the muxer is handed. */
    function Surviving(packets: seq<CopyPkt>): seq<CopyPkt>
      requires Valid()
    {
      if packets == [] then []
      else
        var last := packets[|packets| - 1];
        Surviving(packets[..|packets| - 1]) + (if Dropped(last) then [] else [ToMuxer(last)])
    }

    /** The graph output in front of the encoder, whose time base the encoder has. */
    function InFront(reply: nat -> Reply, audio: bool, rate: nat): Tap
      requires Valid()
    {
      Tap(reply, audio, rate, src.tb, w.OutputCutoff(seekOffset), if w.copyTs then seekOffset else 0)
    }
  }

  class Encoder {
    const stream: Stream
    var muxed: seq<CopyPkt>

    constructor (stream: Stream)
      ensures this.stream == stream && muxed == []
    {
      this.stream, muxed := stream, [];
    }

    /** One packet on its way to the muxer; None is past the window. */
    method Finish(pkt: CopyPkt) returns (out: Option<CopyPkt>)
      requires stream.Valid()
      ensures out.None? <==> stream.Dropped(pkt)
      ensures out.Some? ==> out.value == stream.ToMuxer(pkt)
    {
      hide Rescale, TsAdd, Window.OutputCutoff;
      var cutoff := stream.w.OutputCutoff(stream.seekOffset);
      var src := stream.src;
      var pts, dts, duration := pkt.at.pts, pkt.at.dts, pkt.duration;
      if stream.w.copyTs {
        var off := Rescale(stream.seekOffset, MICROS, src.tb);
        if pts != NOPTS { pts := TsAdd(pts, off); }
        if dts != NOPTS { dts := TsAdd(dts, off); }
      }
      if cutoff != INT64_MAX && pts != NOPTS && Rescale(pts, src.tb, MICROS) >= cutoff {
        return None;
      }
      duration := FilledDuration(src, duration);
      if pts != NOPTS { pts := Rescale(pts, src.tb, src.outTb); }
      if dts != NOPTS { dts := Rescale(dts, src.tb, src.outTb); }
      if duration > 0 { duration := Rescale(duration, src.tb, src.outTb); }
      out := Some(CopyPkt(Stamps(pts, dts), duration));
    }

    /** drain_encoder. */
    method Drain(r: Ready, muxes: nat -> bool) returns (ok: bool)
      requires stream.Valid()
      modifies this
      ensures old(muxed) <= muxed <= old(muxed) + stream.Surviving(r.packets)
      ensures ok ==> muxed == old(muxed) + stream.Surviving(r.packets)
      ensures ok <==>
        && r.accepted && r.sound
        && forall n :: |old(muxed)| < n <= |old(muxed)| + |stream.Surviving(r.packets)| ==> muxes(n)
    {
      hide stream.Dropped, stream.ToMuxer, stream.Surviving;
      if !r.accepted {
        return false;
      }
      NothingSurvives(stream);
      for k := 0 to |r.packets|
        invariant muxed == old(muxed) + stream.Surviving(r.packets[..k])
        invariant forall n :: |old(muxed)| < n <= |muxed| ==> muxes(n)
      {
        SurvivingStep(stream, r.packets, k);
        var pkt := Finish(r.packets[k]);
        if pkt.None? { continue; }
        muxed := muxed + [pkt.value];
        if !muxes(|muxed|) {
          return false;
        }
      }
      assert r.packets[..|r.packets|] == r.packets;
      ok := r.sound;
    }
  }

  lemma NothingSurvives(s: Stream)
    requires s.Valid()
    ensures s.Surviving([]) == []
  {}

  lemma SurvivingStep(s: Stream, packets: seq<CopyPkt>, k: nat)
    requires s.Valid() && k < |packets|
    ensures s.Surviving(packets[..k + 1])
         == s.Surviving(packets[..k]) + (if s.Dropped(packets[k]) then [] else [s.ToMuxer(packets[k])])
    ensures s.Surviving(packets[..k + 1]) <= s.Surviving(packets)
    decreases |packets| - k
  {
    assert packets[..k + 1][..k] == packets[..k];
    if k + 1 < |packets| {
      SurvivingStep(s, packets, k + 1);
    } else {
      assert packets[..k + 1] == packets;
    }
  }

  // ---- the two windows ------------------------------------------------------------

  /** The seek start falls on a tick of this time base. */
  /** Which packets are inside the window. */
  function Inside(s: Stream, packets: seq<CopyPkt>): (ks: seq<nat>)
    requires s.Valid()
    ensures forall i :: 0 <= i < |ks| ==> ks[i] < |packets|
  {
    if packets == [] then []
    else
      var n := |packets| - 1;
      Inside(s, packets[..n]) + (if s.Dropped(packets[n]) then [] else [n])
  }

  lemma {:induction false} InsideIsExact(s: Stream, packets: seq<CopyPkt>)
    requires s.Valid()
    ensures forall k :: 0 <= k < |packets| ==> (k in Inside(s, packets) <==> !s.Dropped(packets[k]))
    ensures forall a, b :: 0 <= a < b < |Inside(s, packets)| ==> Inside(s, packets)[a] < Inside(s, packets)[b]
  {
    hide Stream.Dropped;
    if packets != [] {
      var n := |packets| - 1;
      InsideIsExact(s, packets[..n]);
      assert forall k :: 0 <= k < n ==> packets[..n][k] == packets[k];
    }
  }

  /** The muxer is handed exactly the packets that are not past the window, in order. */
  lemma {:induction false} SurvivingIsExact(s: Stream, packets: seq<CopyPkt>)
    requires s.Valid()
    ensures |s.Surviving(packets)| == |Inside(s, packets)|
    ensures forall i :: 0 <= i < |s.Surviving(packets)| ==>
      s.Surviving(packets)[i] == s.ToMuxer(packets[Inside(s, packets)[i]])
  {
    hide Stream.Dropped, Stream.ToMuxer;
    if packets != [] {
      SurvivingIsExact(s, packets[..|packets| - 1]);
    }
  }

  predicate WholeTicks(off: nat, tb: Ratio)
    requires Positive(tb)
  {
    (off * tb.den) % (tb.num * 1_000_000) == 0
  }

  /** Cutting a frame by its time plus the seek start, as the pull does. */
  predicate SinkCuts(off: nat, tb: Ratio, p: int, cutoff: int)
    requires Positive(tb)
  {
    Exact(p, tb, MICROS) + off >= cutoff
  }

  /** Cutting a packet by the time of its stamp plus the seek start in ticks. */
  predicate EncoderCuts(off: nat, tb: Ratio, p: int, cutoff: int)
    requires Positive(tb)
  {
    Exact(p + Exact(off, MICROS, tb), tb, MICROS) >= cutoff
  }

  /** The two are the same cut for this stamp, wherever the window ends (nothing saturating). */
  ghost predicate SameCutAt(off: nat, tb: Ratio, p: int)
    requires Positive(tb)
  {
    forall cutoff: int :: SinkCuts(off, tb, p, cutoff) <==> EncoderCuts(off, tb, p, cutoff)
  }

  /** And for every stamp that is not before zero. */
  ghost predicate SameCut(off: nat, tb: Ratio)
    requires Positive(tb)
  {
    forall p: nat :: SameCutAt(off, tb, p)
  }

  /** They are the same there if and only if the seek starts on a tick. */
  lemma SameCutIffWholeTicks(off: nat, tb: Ratio)
    requires Positive(tb)
    ensures SameCut(off, tb) <==> WholeTicks(off, tb)
  {
    hide Exact, WholeTicks;
    if WholeTicks(off, tb) {
      forall p: nat ensures SameCutAt(off, tb, p) {
        WholeTicksShiftIff(off, tb, p);
      }
    }
    if SameCut(off, tb) {
      ExactNonNegative(off, MICROS, tb);
      SameCutAccumulates(off, tb, tb.den);
      Drift(off, tb, Exact(off, MICROS, tb));
    }
  }

  lemma ExactNonNegative(t: nat, from: Ratio, to: Ratio)
    requires Positive(from) && Positive(to)
    ensures Exact(t, from, to) >= 0
  {
    ExactMonotone(0, t, from, to);
  }

  /** A stamp before zero, half a microsecond off, that the seek brings to zero or later: halves are
      rounded away from zero, so it is rounded down on one side of the shift and up on the other. */
  predicate HalfBeforeZero(off: nat, tb: Ratio, p: int)
    requires Positive(tb)
  {
    var (n, d) := (tb.num * 1_000_000, tb.den);
    p < 0 <= p * n + off * d && (2 * (p * n) + d) % (2 * d) == 0
  }

  /** With the seek on a tick, those are the only stamps on which the two cuts differ. */
  lemma WholeTicksSameCutIff(off: nat, tb: Ratio, p: int)
    requires Positive(tb) && WholeTicks(off, tb)
    ensures SameCutAt(off, tb, p) <==> !HalfBeforeZero(off, tb, p)
  {
    hide Exact, WholeTicks, HalfBeforeZero;
    WholeTicksShiftIff(off, tb, p);
    if SameCutAt(off, tb, p) {
      var (a, b) := (Exact(p, tb, MICROS) + off, Exact(p + Exact(off, MICROS, tb), tb, MICROS));
      assert SinkCuts(off, tb, p, a) && EncoderCuts(off, tb, p, b);
    }
  }

  lemma WholeTicksShiftIff(off: nat, tb: Ratio, p: int)
    requires Positive(tb) && WholeTicks(off, tb)
    ensures Exact(p + Exact(off, MICROS, tb), tb, MICROS) == Exact(p, tb, MICROS) + off <==> !HalfBeforeZero(off, tb, p)
    ensures p >= 0 ==> !HalfBeforeZero(off, tb, p)
  {
    hide RoundNear;
    var (n, d) := (tb.num * 1_000_000, tb.den);
    var k := (off * d) / n;
    Quotient(off * d, n);
    assert off * d == k * n;
    RoundNearWhole(k, n);
    assert Exact(off, MICROS, tb) == RoundNear(off * d, n) == k;
    assert Exact(p, tb, MICROS) == RoundNear(p * n, d);
    assert Exact(p + k, tb, MICROS) == RoundNear((p + k) * n, d);
    DistributeSum(p, k, n);
    SignOf(p, n);
    RoundNearAddIff(p * n, off, d);
  }

  lemma SignOf(p: int, n: int)
    requires n > 0
    ensures p * n < 0 <==> p < 0
  {
    if p < 0 { MulMonotone(n, p, -1); } else { PositiveOrZero(p, n); }
  }

  lemma DistributeSum(a: int, b: int, c: int)
    ensures (a + b) * c == a * c + b * c
  {}

  /** Adding whole steps before rounding is adding them after, but for a half on the other side of zero. */
  lemma RoundNearAddIff(a: int, k: int, d: int)
    requires d > 0 && k >= 0
    ensures RoundNear(a + k * d, d) == RoundNear(a, d) + k <==> !(a < 0 <= a + k * d && (2 * a + d) % (2 * d) == 0)
  {
    UpShifted(a, k, d);
    DownShifted(a, k, d);
    HalfDown(a, d);
    PositiveOrZero(k, d);
    RoundNearSigns(a, k * d, k, d);
  }

  lemma UpShifted(a: int, k: int, d: int)
    requires d > 0
    ensures (2 * (a + k * d) + d) / (2 * d) == (2 * a + d) / (2 * d) + k
  {
    Doubled(k, d);
    DivShift(2 * a + d, k, 2 * d);
  }

  lemma DownShifted(a: int, k: int, d: int)
    requires d > 0
    ensures (d - 2 * (a + k * d)) / (2 * d) == (d - 2 * a) / (2 * d) - k
  {
    Doubled(-k, d);
    DivShift(d - 2 * a, -k, 2 * d);
  }

  lemma Doubled(k: int, d: int)
    ensures k * (2 * d) == 2 * (k * d) && -k * d == -(k * d)
  {}

  /** Which quotient decides on either side of the shift, by sign. */
  lemma RoundNearSigns(a: int, m: int, k: int, d: int)
    requires d > 0 && m >= 0
    requires (2 * (a + m) + d) / (2 * d) == (2 * a + d) / (2 * d) + k
    requires (d - 2 * (a + m)) / (2 * d) == (d - 2 * a) / (2 * d) - k
    requires (2 * a + d) / (2 * d) == -((d - 2 * a) / (2 * d)) <==> (2 * a + d) % (2 * d) != 0
    ensures RoundNear(a + m, d) == RoundNear(a, d) + k <==> !(a < 0 <= a + m && (2 * a + d) % (2 * d) == 0)
  {}

  lemma HalfDown(a: int, d: int)
    requires d > 0
    ensures (2 * a + d) / (2 * d) == -((d - 2 * a) / (2 * d)) <==> (2 * a + d) % (2 * d) != 0
  {
    var (q, r) := ((2 * a + d) / (2 * d), (2 * a + d) % (2 * d));
    Quotient(2 * a + d, 2 * d);
    if r == 0 {
      assert 2 * d * (1 - q) == 2 * d - 2 * d * q;
      DivUnique(d - 2 * a, 2 * d, 1 - q);
    } else {
      assert 2 * d * (-q) == -(2 * d * q);
      DivUnique(d - 2 * a, 2 * d, -q);
    }
  }

  lemma DivUnique(n: int, d: int, q: int)
    requires d > 0 && d * q <= n < d * q + d
    ensures n / d == q
  {
    Quotient(n, d);
    if n / d < q { MulMonotone(d, n / d + 1, q); }
    if q < n / d { MulMonotone(d, q + 1, n / d); }
  }

  lemma DivShift(a: int, k: int, d: int)
    requires d > 0
    ensures (a + k * d) / d == a / d + k
  {
    Quotient(a, d);
    assert d * (a / d + k) == d * (a / d) + k * d;
    DivUnique(a + k * d, d, a / d + k);
  }

  /** If the cuts agree, the rounding error of the shift never adds up to a microsecond. */
  lemma {:induction false} SameCutAccumulates(off: nat, tb: Ratio, n: nat)
    requires Positive(tb) && SameCut(off, tb) && Exact(off, MICROS, tb) >= 0
    ensures Exact(n * Exact(off, MICROS, tb), tb, MICROS) == n * off
  {
    hide Exact;
    var k := Exact(off, MICROS, tb);
    if n == 0 {
      ExactZero(tb, MICROS);
    } else {
      SameCutAccumulates(off, tb, n - 1);
      PositiveOrZero(n - 1, k);
      var p: nat := (n - 1) * k;
      Distribute(n - 1, k);
      Distribute(n - 1, off);
      assert SameCutAt(off, tb, p);
      assert SinkCuts(off, tb, p, n * off) <==> EncoderCuts(off, tb, p, n * off);
      assert SinkCuts(off, tb, p, n * off + 1) <==> EncoderCuts(off, tb, p, n * off + 1);
    }
  }

  lemma ExactZero(from: Ratio, to: Ratio)
    requires Positive(from) && Positive(to)
    ensures Exact(0, from, to) == 0
  {
    PositiveProduct(from.den, to.num);
    DivUnique(from.den * to.num, 2 * (from.den * to.num), 0);
  }

  lemma PositiveOrZero(a: nat, b: nat)
    ensures a * b >= 0
  {}

  lemma Distribute(a: int, b: int)
    ensures (a + 1) * b == a * b + b
  {}

  /** An error that stays below half a microsecond however often it is taken is none. */
  lemma Drift(off: nat, tb: Ratio, k: nat)
    requires Positive(tb) && Exact(tb.den * k, tb, MICROS) == tb.den * off
    ensures WholeTicks(off, tb)
  {
    var (n, d) := (tb.num * 1_000_000, tb.den);
    var m := d * k * n;
    assert Exact(d * k, tb, MICROS) == RoundNear(m, d);
    RoundNearBounds(m, d);
    assert m == d * (k * n) by { Reassociate(d, k, n); }
    Squeeze(d, k * n, d * off);
    assert k * n == off * d;
    DivShift(0, k, n);
    ModOfMultiple(k, n);
  }

  lemma Reassociate(a: int, b: int, c: int)
    ensures a * b * c == a * (b * c)
  {}

  lemma Squeeze(d: int, x: int, y: int)
    requires d > 0 && 2 * (d * x) - d <= 2 * d * y <= 2 * (d * x) + d
    ensures x == y
  {
    if x < y { MulMonotone(d, x + 1, y); }
    if y < x { MulMonotone(d, y + 1, x); }
  }

  lemma ModOfMultiple(k: int, n: int)
    requires n > 0
    ensures (k * n) % n == 0
  {
    var m := k * n;
    DivShift(0, k, n);
    assert m / n == k;
    NothingLeft(m, n);
  }

  lemma NothingLeft(m: int, n: int)
    requires n > 0 && m == n * (m / n)
    ensures m % n == 0
  {}

  // ---- where an encoded packet lands ------------------------------------------------

  /** Nothing on this stamp's way to the muxer saturates or turns into the unknown stamp. */
  predicate Unsaturated(s: Stream, t: int64)
    requires s.Valid()
  {
    && t != NOPTS && InRange(Exact(s.seekOffset, MICROS, s.src.tb))
    && INT64_MIN < t + s.Shift() <= INT64_MAX
    && INT64_MIN < Exact(t + s.Shift(), s.src.tb, s.src.outTb) <= INT64_MAX
  }

  /** Within half an output tick of its own time plus, under copy_ts, the seek start, and then within
      half an encoder tick more. */
  lemma EncodedLandsNear(s: Stream, t: int64)
    requires s.Valid() && Unsaturated(s, t)
    ensures var due := InSeconds(t, s.src.tb) + (if s.w.copyTs then InSeconds(s.seekOffset, MICROS) else 0.0);
      Gap(InSeconds(RescaleStamp(s.Restored(t), s.src.tb, s.src.outTb), s.src.outTb), due)
        <= InSeconds(1, s.src.outTb) / 2.0 + (if s.w.copyTs then InSeconds(1, s.src.tb) / 2.0 else 0.0)
  {
    hide Exact;
    RescaleError(t + s.Shift(), s.src.tb, s.src.outTb);
    if s.w.copyTs {
      RescaleError(s.seekOffset, MICROS, s.src.tb);
      assert InSeconds(t + s.Shift(), s.src.tb) == InSeconds(t, s.src.tb) + InSeconds(s.Shift(), s.src.tb);
    }
  }

  /** Where a stamp out of the encoder belongs on the output's clock, and how far from there it may land. */
  function Home(s: Stream, t: int64): real
    requires s.Valid()
  {
    InSeconds(t, s.src.tb) + (if s.w.copyTs then InSeconds(s.seekOffset, MICROS) else 0.0)
  }

  function Room(s: Stream): real
    requires s.Valid()
  {
    InSeconds(1, s.src.outTb) / 2.0 + (if s.w.copyTs then InSeconds(1, s.src.tb) / 2.0 else 0.0)
  }

  /** What the muxer is handed: each stamp where it belongs, an unknown one unknown, and the duration as in the
      copy lane. A packet without a pts passes the window. */
  lemma ToMuxerLands(s: Stream, p: CopyPkt)
    requires s.Valid()
    ensures var out := s.ToMuxer(p);
      && (Unsaturated(s, p.at.pts) ==> Gap(InSeconds(out.at.pts, s.src.outTb), Home(s, p.at.pts)) <= Room(s))
      && (Unsaturated(s, p.at.dts) ==> Gap(InSeconds(out.at.dts, s.src.outTb), Home(s, p.at.dts)) <= Room(s))
      && (p.at.pts == NOPTS ==> out.at.pts == NOPTS && !s.Dropped(p)) && (p.at.dts == NOPTS ==> out.at.dts == NOPTS)
      && out.duration == LandedDuration(s.src, p.duration)
  {
    hide Rescale, InSeconds, Exact, TsAdd;
    if Unsaturated(s, p.at.pts) { EncodedLandsNear(s, p.at.pts); }
    if Unsaturated(s, p.at.dts) { EncodedLandsNear(s, p.at.dts); }
  }

  /** And the way to the muxer never reorders two stamps: dts order and dts <= pts survive. */
  lemma EncodedKeepsOrder(s: Stream, t: int64, u: int64)
    requires s.Valid() && t <= u && Unsaturated(s, t) && Unsaturated(s, u)
    ensures RescaleStamp(s.Restored(t), s.src.tb, s.src.outTb) <= RescaleStamp(s.Restored(u), s.src.tb, s.src.outTb)
  {
    hide Exact;
    ExactMonotone(t + s.Shift(), u + s.Shift(), s.src.tb, s.src.outTb);
  }

  // ---- and in the engine's own arithmetic ------------------------------------------

  /** Nothing about this stamp saturates or becomes the unknown stamp. */
  predicate Fits(s: Stream, t: int64)
    requires s.Valid()
  {
    && t != NOPTS && InRange(Exact(s.seekOffset, MICROS, s.src.tb)) && NOPTS < t + s.Shift() <= INT64_MAX
    && InRange(Exact(t, s.src.tb, MICROS)) && InRange(Exact(t, s.src.tb, MICROS) + s.seekOffset)
    && InRange(Exact(t + s.Shift(), s.src.tb, MICROS))
  }

  /** A frame gets past the window in front of the encoder exactly when its packet would get past
      the one behind it, unless copy_ts keeps a seek that starts between two ticks, or its stamp is one
      of those before zero. */
  lemma SinkAndEncoderAgree(s: Stream, reply: nat -> Reply, audio: bool, rate: nat, t: int64, p: CopyPkt)
    requires s.Valid() && Fits(s, t) && p.at.pts == t
    requires s.w.copyTs ==> WholeTicks(s.seekOffset, s.src.tb) && !HalfBeforeZero(s.seekOffset, s.src.tb, t)
    ensures s.InFront(reply, audio, rate).PastWindow(t) <==> s.Dropped(p)
  {
    hide Exact, WholeTicks, HalfBeforeZero;
    if s.w.copyTs {
      WholeTicksShiftIff(s.seekOffset, s.src.tb, t);
    }
  }

  /** One that is: in half microseconds, seeked to 10 us, the stamp just before zero is at 9 us for the
      first window and at 10 us for the second. */
  lemma EarlyStampSplits()
    ensures var tb := Ratio(1, 2_000_000);
      && WholeTicks(10, tb) && HalfBeforeZero(10, tb, -1)
      && !SinkCuts(10, tb, -1, 10) && EncoderCuts(10, tb, -1, 10)
  {
    var tb := Ratio(1, 2_000_000);
    assert Exact(10, MICROS, tb) == 20 && Exact(-1, tb, MICROS) == -1 && Exact(19, tb, MICROS) == 10;
  }

  /** A sink has an end to its window exactly when its output has one, and then even an endless sink
      gets done. */
  lemma WindowedOutputEnds(s: Stream, reply: nat -> Reply, audio: bool, rate: nat, from: nat)
    requires s.Valid()
    ensures s.InFront(reply, audio, rate).cutoff != INT64_MAX <==> s.w.Bounded()
    ensures var t := s.InFront(reply, audio, rate);
      s.w.Bounded() && Endless(t, from) ==> t.Pausing() && t.Ending()
  {
    hide Endless;
    var t := s.InFront(reply, audio, rate);
    if s.w.Bounded() && Endless(t, from) {
      EndlessSinkIsBounded(t, from);
    }
  }

  /** Frame 24 of a 25 fps output cut at 0.965 s, seeked to 30 ms and kept on the source's timeline:
      it is encoded, and its packet is thrown away. */
  lemma OffTickSeekLosesAFrame(reply: nat -> Reply, src: Source)
    requires src.Valid() && src.tb == Ratio(1, 25)
    ensures var s := Stream(Window(0.965, 0.0, true), 30_000, src);
      !s.InFront(reply, false, 0).PastWindow(24) && s.Dropped(CopyPkt(Stamps(24, 24), 1))
  {
    assert Micros(0.965) == 965_000;
    assert Rescale(24, src.tb, MICROS) == 960_000 && Rescale(30_000, MICROS, src.tb) == 1;
    assert Rescale(25, src.tb, MICROS) == 1_000_000;
  }
}
