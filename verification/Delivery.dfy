/** From one end of the copy lane to the other: what the demux loop hands a copy target, what the lane
    keeps of it, and what the muxer makes of that. */
module Delivery {
  import opened Timeline
  import opened Windows
  import opened MuxFixup
  import opened CopyLane
  import opened EarlyEof
  import DemuxLoop

  // ---- the input, as the lane and the loop see it ----------------------------------

  ghost predicate AllGot(input: DemuxLoop.Input, n: nat) {
    forall k :: 0 <= k < n ==> input.read(k).Got?
  }

  /** The first n packets of an input, marked by whether the pair copies their stream. */
  function Arrivals(input: DemuxLoop.Input, copied: nat -> bool, n: nat): (run: seq<Arrival>)
    requires AllGot(input, n)
    ensures |run| == n
  {
    seq(n, k requires 0 <= k < n && AllGot(input, n) =>
      var p := input.read(k).packet; Arrival(p.stream, copied(p.stream), Stamps(p.pts, p.dts)))
  }

  /** The input has streams with these time bases, and no others. */
  ghost predicate HasStreams(input: DemuxLoop.Input, tbs: seq<Ratio>) {
    && (forall s :: 0 <= s < |tbs| ==> tbs[s] == input.tb(s) && Positive(tbs[s]))
    && (forall k: nat :: input.read(k).Got? ==> input.read(k).packet.stream < |tbs|)
  }

  lemma ArrivalsAreValid(input: DemuxLoop.Input, copied: nat -> bool, tbs: seq<Ratio>, n: nat)
    requires AllGot(input, n) && HasStreams(input, tbs)
    ensures ValidRun(tbs, Arrivals(input, copied, n))
  {}

  /** The packets the loop reads before it ends the input are exactly those in front of its first
      stopping answer. */
  lemma ReadIsBeforeStop(input: DemuxLoop.Input, copied: nat -> bool, tbs: seq<Ratio>, n: nat, stop: nat, k: nat)
    requires input.Valid() && AllGot(input, n) && HasStreams(input, tbs) && input.StopsFirstAt(stop) && k < n
    ensures ValidRun(tbs, Arrivals(input, copied, n))
    ensures IsRead(tbs, Arrivals(input, copied, n), input.cutoff, k) <==> k < stop
  {
    hide Rescale;
    ArrivalsAreValid(input, copied, tbs, n);
    var run := Arrivals(input, copied, n);
    forall j | 0 <= j < n ensures Ends(Time(tbs, run, j), input.cutoff) <==> input.Stops(j) {
      assert run[j].stream < |tbs|;
    }
    if stop <= k {
      assert Ends(Time(tbs, run, stop), input.cutoff);
    }
  }

  // ---- what the lane hands the muxer ---------------------------------------------------

  /** Of the packets ks of the input, those the lane keeps, where they land. */
  function Delivered(w: Window, src: Source, tbs: seq<Ratio>, run: seq<Arrival>, ks: seq<nat>): seq<Stamps>
    requires src.Valid() && ValidRun(tbs, run) && forall i :: 0 <= i < |ks| ==> ks[i] < |run|
  {
    if ks == [] then []
    else
      var (init, k) := (ks[..|ks| - 1], ks[|ks| - 1]);
      Delivered(w, src, tbs, run, init)
      + (if KeptAt(w, tbs, run, k) then [LandedStamps(w, RebaseAfter(tbs, run, k + 1), src, run[k].at)] else [])
  }

  /** Which of the packets ks the lane keeps. */
  function Keeps(w: Window, tbs: seq<Ratio>, run: seq<Arrival>, ks: seq<nat>): (js: seq<nat>)
    requires ValidRun(tbs, run) && forall i :: 0 <= i < |ks| ==> ks[i] < |run|
    ensures forall i :: 0 <= i < |js| ==> js[i] < |run|
  {
    if ks == [] then []
    else
      var n := |ks| - 1;
      Keeps(w, tbs, run, ks[..n]) + (if KeptAt(w, tbs, run, ks[n]) then [ks[n]] else [])
  }

  lemma {:induction false} KeepsIsExact(w: Window, tbs: seq<Ratio>, run: seq<Arrival>, ks: seq<nat>)
    requires ValidRun(tbs, run) && forall i :: 0 <= i < |ks| ==> ks[i] < |run|
    ensures forall k: nat :: k in Keeps(w, tbs, run, ks) <==> k in ks && k < |run| && KeptAt(w, tbs, run, k)
  {
    hide KeptAt, ValidRun;
    if ks != [] {
      var n := |ks| - 1;
      KeepsIsExact(w, tbs, run, ks[..n]);
      KeepsStep(w, tbs, run, ks);
      hide Keeps;
      assert ks == ks[..n] + [ks[n]];
    }
  }

  lemma KeepsStep(w: Window, tbs: seq<Ratio>, run: seq<Arrival>, ks: seq<nat>)
    requires ValidRun(tbs, run) && (forall i :: 0 <= i < |ks| ==> ks[i] < |run|) && ks != []
    ensures Keeps(w, tbs, run, ks)
         == Keeps(w, tbs, run, ks[..|ks| - 1])
          + (if KeptAt(w, tbs, run, ks[|ks| - 1]) then [ks[|ks| - 1]] else [])
  {}

  lemma {:induction false} KeepsInOrder(w: Window, tbs: seq<Ratio>, run: seq<Arrival>, ks: seq<nat>)
    requires ValidRun(tbs, run) && (forall i :: 0 <= i < |ks| ==> ks[i] < |run|) && DemuxLoop.Rising(ks)
    ensures DemuxLoop.Rising(Keeps(w, tbs, run, ks))
  {
    hide KeptAt, ValidRun;
    if ks != [] {
      var init := ks[..|ks| - 1];
      KeepsInOrder(w, tbs, run, init);
      KeepsIsExact(w, tbs, run, init);
      KeepsStep(w, tbs, run, ks);
      var js := Keeps(w, tbs, run, init);
      hide Keeps;
      forall i | 0 <= i < |js| ensures js[i] < ks[|ks| - 1] {
        assert js[i] in js;
      }
    }
  }

  /** What the muxer is handed is exactly the kept packets, in order, each where its own stamps land. */
  lemma {:induction false} DeliveredIsExact(w: Window, src: Source, tbs: seq<Ratio>, run: seq<Arrival>, ks: seq<nat>)
    requires src.Valid() && ValidRun(tbs, run) && forall i :: 0 <= i < |ks| ==> ks[i] < |run|
    ensures var (out, js) := (Delivered(w, src, tbs, run, ks), Keeps(w, tbs, run, ks));
      && |out| == |js|
      && forall i :: 0 <= i < |js| ==> out[i] == LandedStamps(w, RebaseAfter(tbs, run, js[i] + 1), src, run[js[i]].at)
  {
    hide KeptAt, LandedStamps, RebaseAfter;
    if ks != [] {
      DeliveredIsExact(w, src, tbs, run, ks[..|ks| - 1]);
    }
  }

  /** The packets of one copied stream among the first n. */
  function Of(run: seq<Arrival>, s: nat, n: nat): (ks: seq<nat>)
    requires n <= |run|
    ensures forall i :: 0 <= i < |ks| ==> ks[i] < n
  {
    if n == 0 then []
    else Of(run, s, n - 1) + (if run[n - 1].copied && run[n - 1].stream == s then [n - 1] else [])
  }

  lemma DeliveredSnoc(w: Window, src: Source, tbs: seq<Ratio>, run: seq<Arrival>, ks: seq<nat>, k: nat)
    requires src.Valid() && ValidRun(tbs, run) && k < |run| && forall i :: 0 <= i < |ks| ==> ks[i] < |run|
    ensures Delivered(w, src, tbs, run, ks + [k])
         == Delivered(w, src, tbs, run, ks)
          + (if KeptAt(w, tbs, run, k) then [LandedStamps(w, RebaseAfter(tbs, run, k + 1), src, run[k].at)] else [])
  {
    assert (ks + [k])[..|ks|] == ks;
  }

  /** One output's streams as the lane sees them, their time bases first. */
  ghost predicate Sources(srcs: seq<Source>, tbs: seq<Ratio>) {
    |srcs| == |tbs| && forall s :: 0 <= s < |srcs| ==> srcs[s].Valid() && srcs[s].tb == tbs[s]
  }

  /** copy_packet over a whole input, for one (input, output) pair whose rebase is not yet captured:
      each copied stream's muxer is handed exactly the packets the lane keeps, in order, where they
      land. */
  method CopyInput(rebases: Rebases, i: nat, o: nat, w: Window, srcs: seq<Source>, run: seq<Arrival>,
                   durations: nat -> int64, ghost tbs: seq<Ratio>)
    returns (outs: seq<seq<Stamps>>)
    requires i < rebases.us.Length0 && o < rebases.us.Length1 && rebases.us[i, o] == NOPTS
    requires Sources(srcs, tbs) && ValidRun(tbs, run)
    modifies rebases.us
    ensures rebases.us[i, o] == RebaseAfter(tbs, run, |run|) && Copied(w, srcs, tbs, run, |run|, outs)
  {
    hide Copied, RebaseAfter, NextOuts;
    outs := seq(|srcs|, _ => []);
    NothingCopied(w, srcs, tbs, run, outs);
    for k := 0 to |run|
      invariant rebases.us[i, o] == RebaseAfter(tbs, run, k) && Copied(w, srcs, tbs, run, k, outs)
    {
      ghost var was := outs;
      outs := CopyOne(rebases, i, o, w, srcs, run, k, durations(k), outs, tbs);
      CopiedStep(w, srcs, tbs, run, k, was);
    }
  }

  /** The muxers' shares once packet k is through the lane as well. */
  function NextOuts(w: Window, srcs: seq<Source>, tbs: seq<Ratio>, run: seq<Arrival>, k: nat, outs: seq<seq<Stamps>>)
    : (r: seq<seq<Stamps>>)
    requires Sources(srcs, tbs) && ValidRun(tbs, run) && k < |run| && |outs| == |srcs|
    ensures |r| == |srcs|
  {
    var s := (assert run[k] in run; run[k].stream);
    if KeptAt(w, tbs, run, k)
    then outs[s := outs[s] + [LandedStamps(w, RebaseAfter(tbs, run, k + 1), srcs[s], run[k].at)]]
    else outs
  }

  method CopyOne(rebases: Rebases, i: nat, o: nat, w: Window, srcs: seq<Source>, run: seq<Arrival>, k: nat,
                 duration: int64, was: seq<seq<Stamps>>, ghost tbs: seq<Ratio>)
    returns (outs: seq<seq<Stamps>>)
    requires i < rebases.us.Length0 && o < rebases.us.Length1 && |was| == |srcs|
    requires Sources(srcs, tbs) && ValidRun(tbs, run) && k < |run| && rebases.us[i, o] == RebaseAfter(tbs, run, k)
    modifies rebases.us
    ensures rebases.us[i, o] == RebaseAfter(tbs, run, k + 1) && outs == NextOuts(w, srcs, tbs, run, k, was)
  {
    hide Rescale, LandedStamps, FilledDuration, Kept, Captured;
    assert run[k] in run;
    outs := was;
    if run[k].copied {
      var s := run[k].stream;
      var out := rebases.WriteCopyPkt(i, o, w, srcs[s], CopyPkt(run[k].at, duration));
      if out.Some? {
        outs := outs[s := outs[s] + [out.value.at]];
      }
    }
  }

  /** After the first n packets each stream's muxer has been handed what the lane kept of them. */
  ghost predicate Copied(w: Window, srcs: seq<Source>, tbs: seq<Ratio>, run: seq<Arrival>, n: nat,
                         outs: seq<seq<Stamps>>)
    requires Sources(srcs, tbs) && ValidRun(tbs, run) && n <= |run|
    ensures Copied(w, srcs, tbs, run, n, outs) ==> |outs| == |srcs|
  {
    |outs| == |srcs| && forall s :: 0 <= s < |srcs| ==> outs[s] == Delivered(w, srcs[s], tbs, run, Of(run, s, n))
  }

  lemma NothingCopied(w: Window, srcs: seq<Source>, tbs: seq<Ratio>, run: seq<Arrival>, outs: seq<seq<Stamps>>)
    requires Sources(srcs, tbs) && ValidRun(tbs, run)
    requires |outs| == |srcs| && forall s :: 0 <= s < |srcs| ==> outs[s] == []
    ensures Copied(w, srcs, tbs, run, 0, outs) && RebaseAfter(tbs, run, 0) == NOPTS
  {}

  lemma CopiedStep(w: Window, srcs: seq<Source>, tbs: seq<Ratio>, run: seq<Arrival>, k: nat, was: seq<seq<Stamps>>)
    requires Sources(srcs, tbs) && ValidRun(tbs, run) && k < |run| && Copied(w, srcs, tbs, run, k, was)
    ensures Copied(w, srcs, tbs, run, k + 1, NextOuts(w, srcs, tbs, run, k, was))
  {
    hide Rescale, LandedStamps, KeptAt, RebaseAfter, Delivered, Of;
    forall s | 0 <= s < |srcs|
      ensures NextOuts(w, srcs, tbs, run, k, was)[s] == Delivered(w, srcs[s], tbs, run, Of(run, s, k + 1))
    {
      DeliveredStep(w, srcs[s], tbs, run, s, k);
    }
  }

  /** What packet k adds to one stream's share. */
  lemma DeliveredStep(w: Window, src: Source, tbs: seq<Ratio>, run: seq<Arrival>, s: nat, k: nat)
    requires src.Valid() && ValidRun(tbs, run) && k < |run|
    ensures Delivered(w, src, tbs, run, Of(run, s, k + 1))
         == Delivered(w, src, tbs, run, Of(run, s, k))
          + (if run[k].stream == s && KeptAt(w, tbs, run, k)
             then [LandedStamps(w, RebaseAfter(tbs, run, k + 1), src, run[k].at)] else [])
  {
    hide Rescale, LandedStamps, Kept, RebaseAfter, Delivered;
    var ks := Of(run, s, k);
    assert ks + [] == ks;
    DeliveredSnoc(w, src, tbs, run, ks, k);
  }

  // ---- nothing is lost on the way ---------------------------------------------------------

  lemma {:induction false} RebaseOfPrefix(tbs: seq<Ratio>, run: seq<Arrival>, m: nat, k: nat)
    requires k <= m <= |run| && ValidRun(tbs, run)
    ensures ValidRun(tbs, run[..m]) && RebaseAfter(tbs, run[..m], k) == RebaseAfter(tbs, run, k)
  {
    if k > 0 {
      RebaseOfPrefix(tbs, run, m, k - 1);
    }
  }

  /** What was delivered of a prefix does not depend on what follows it. */
  lemma {:induction false} DeliveredOfPrefix(w: Window, src: Source, tbs: seq<Ratio>, run: seq<Arrival>, m: nat,
                                             ks: seq<nat>)
    requires src.Valid() && m <= |run| && ValidRun(tbs, run) && ValidRun(tbs, run[..m])
    requires forall i :: 0 <= i < |ks| ==> ks[i] < m
    ensures Delivered(w, src, tbs, run[..m], ks) == Delivered(w, src, tbs, run, ks)
  {
    hide Rescale, Landed, Kept;
    if ks != [] {
      DeliveredOfPrefix(w, src, tbs, run, m, ks[..|ks| - 1]);
      RebaseOfPrefix(tbs, run, m, ks[|ks| - 1] + 1);
    }
  }

  /** A consumer's route is the lane's own list of its stream's packets. */
  lemma {:induction false} OfIsRoute(input: DemuxLoop.Input, copied: nat -> bool, s: nat, n: nat, m: nat)
    requires AllGot(input, n) && m <= n && copied(s)
    ensures Of(Arrivals(input, copied, n), s, m) == input.Route(s, m)
  {
    if m > 0 {
      OfIsRoute(input, copied, s, n, m - 1);
    }
  }

  /** One input on its way through a pair's copy lane: it is ended at `stop`, of n packets altogether.
      The rebase the pair captures lies at most `ahead` past the input's base, and no packet lags an
      earlier one by more than `lag`. */
  datatype Passage = Passage(input: DemuxLoop.Input, tbs: seq<Ratio>, copied: nat -> bool, stop: nat, n: nat,
                             w: Window, seek: Seek, ahead: int, lag: nat)
  {
    ghost predicate Valid() {
      && input.Valid() && stop <= n && AllGot(input, n) && HasStreams(input, tbs) && input.StopsFirstAt(stop)
      && ValidRun(tbs, Arrivals(input, copied, n)) && ValidRun(tbs, Arrivals(input, copied, stop))
    }

    function Whole(): (run: seq<Arrival>)
      requires AllGot(input, n)
      ensures |run| == n
    {
      Arrivals(input, copied, n)
    }

    function Read(): (run: seq<Arrival>)
      requires AllGot(input, stop)
      ensures |run| == stop
    {
      Arrivals(input, copied, stop)
    }

    /** The threshold is the job's, and reach and lag fit its margin. */
    ghost predicate WithinMargin()
      requires Valid()
    {
      && w.Bounded() && InRange(seek.Base() + ahead) && Reach(w, ahead) + lag <= SECOND + 1
      && w.Cut(seek.Base()) + SECOND <= input.cutoff
      && LagsAtMost(tbs, Whole(), lag) && AheadAtMost(tbs, Whole(), seek, ahead)
    }
  }

  /** Every packet of the stream has a decode time that fits in microseconds. */
  ghost predicate AllTimed(tbs: seq<Ratio>, run: seq<Arrival>, s: nat)
    requires ValidRun(tbs, run)
  {
    forall k :: 0 <= k < |run| && run[k].stream == s ==> Time(tbs, run, k) != NOPTS
  }

  /** The lane keeps nothing from the stop on. */
  lemma NothingKeptAfterStop(p: Passage, k: nat)
    requires p.Valid() && p.WithinMargin() && p.stop <= k < p.n && Time(p.tbs, p.Whole(), k) != NOPTS
    ensures !KeptAt(p.w, p.tbs, p.Whole(), k)
  {
    hide Rescale, KeptAt, LagsAtMost, AheadAtMost, Window.Cut, IsRead;
    MarginSuffices(p.w, p.seek, p.input.cutoff, p.ahead, p.lag);
    ReadIsBeforeStop(p.input, p.copied, p.tbs, p.n, p.stop, k);
  }

  lemma {:induction false} NothingAfterStop(p: Passage, src: Source, s: nat, m: nat)
    requires p.Valid() && p.WithinMargin() && p.stop <= m <= p.n
    requires src.Valid() && AllTimed(p.tbs, p.Whole(), s)
    ensures Delivered(p.w, src, p.tbs, p.Whole(), Of(p.Whole(), s, m))
         == Delivered(p.w, src, p.tbs, p.Whole(), Of(p.Whole(), s, p.stop))
  {
    hide Rescale, KeptAt, LandedStamps, Passage.WithinMargin, Delivered, RebaseAfter, Of;
    if m > p.stop {
      NothingAfterStop(p, src, s, m - 1);
      DeliveredStep(p.w, src, p.tbs, p.Whole(), s, m - 1);
      if p.Whole()[m - 1].stream == s {
        NothingKeptAfterStop(p, m - 1);
      }
    }
  }

  /** Ending the input early cost a copied stream nothing. The demux loop handed its target the
      stream's route up to the stop; what the lane makes of that is exactly what it would have made of
      the stream's packets in the whole input. */
  lemma CopiedStreamSurvives(p: Passage, src: Source, s: nat, got: seq<nat>)
    requires p.Valid() && p.WithinMargin()
    requires src.Valid() && p.copied(s) && AllTimed(p.tbs, p.Whole(), s)
    requires got == p.input.Route(s, p.stop)
    ensures got == Of(p.Read(), s, p.stop) && p.input.Route(s, p.n) == Of(p.Whole(), s, p.n)
    ensures Delivered(p.w, src, p.tbs, p.Read(), Of(p.Read(), s, p.stop))
         == Delivered(p.w, src, p.tbs, p.Whole(), Of(p.Whole(), s, p.n))
  {
    hide Rescale, Delivered, Of, Passage.WithinMargin;
    assert p.Whole()[..p.stop] == p.Read();
    OfIsRoute(p.input, p.copied, s, p.stop, p.stop);
    OfIsRoute(p.input, p.copied, s, p.n, p.stop);
    OfIsRoute(p.input, p.copied, s, p.n, p.n);
    DeliveredOfPrefix(p.w, src, p.tbs, p.Whole(), p.stop, Of(p.Whole(), s, p.stop));
    NothingAfterStop(p, src, s, p.n);
  }

  /** And that is what a run of the engine that succeeded leaves behind, for each of its copy targets. */
  lemma EngineDelivers(e: DemuxLoop.Engine, t: nat, p: Passage, src: Source)
    requires e.job.Valid() && |e.pos| == |e.job.inputs| && e.AllServed() && t < |e.job.copies|
    requires p.input == e.job.inputs[e.job.copies[t].input] && p.stop == e.pos[e.job.copies[t].input]
    requires p.Valid() && p.WithinMargin()
    requires var s := e.job.copies[t].stream; src.Valid() && p.copied(s) && AllTimed(p.tbs, p.Whole(), s)
    ensures var s := e.job.copies[t].stream;
      && e.copied[t] == Of(p.Read(), s, p.stop)
      && Delivered(p.w, src, p.tbs, p.Read(), Of(p.Read(), s, p.stop))
         == Delivered(p.w, src, p.tbs, p.Whole(), Of(p.Whole(), s, p.n))
  {
    hide Rescale, Delivered, Of, Passage.Valid, Passage.WithinMargin;
    CopiedStreamSurvives(p, src, e.job.copies[t].stream, e.copied[t]);
  }

  // ---- and in the file ---------------------------------------------------------------------

  /** The packets handed over for stream t of an output, in order, and what they are muxed as. */
  function Sent(run: seq<Handed>, t: nat): seq<Stamps> {
    if run == [] then []
    else
      var (init, h) := (run[..|run| - 1], run[|run| - 1]);
      Sent(init, t) + (if h.stream == t then [h.pkt] else [])
  }

  function InFile(m: Muxer, start: seq<int64>, run: seq<Handed>, t: nat): seq<Stamps>
    requires forall h <- run :: h.stream < |start|
  {
    if run == [] then []
    else
      var n := |run| - 1;
      InFile(m, start, run[..n], t) + (if run[n].stream == t then [Muxed(m, start, run, n)] else [])
  }

  lemma {:induction false} SentInRun(run: seq<Handed>, t: nat, k: nat)
    requires k < |run| && run[k].stream == t
    ensures run[k].pkt in Sent(run, t)
  {
    var n := |run| - 1;
    if k < n {
      assert run[..n][k] == run[k];
      SentInRun(run[..n], t, k);
    }
  }

  lemma {:induction false} LastBeforePrefix(m: Muxer, start: seq<int64>, run: seq<Handed>, n: nat, k: nat)
    requires k <= n <= |run| && forall h <- run :: h.stream < |start|
    ensures LastBefore(m, start, run[..n], k) == LastBefore(m, start, run, k)
  {
    hide Fixed;
    if k > 0 {
      LastBeforePrefix(m, start, run, n, k - 1);
    }
  }

  /** What a muxer takes as it is: no dts past its pts, and each dts admissible after the one before. */
  ghost predicate Orderly(m: Muxer, sent: seq<Stamps>) {
    && (forall p <- sent :: p.dts != NOPTS && (p.pts != NOPTS ==> p.dts <= p.pts))
    && (forall i :: 0 <= i < |sent| - 1 ==> Admissible(m, sent[i].dts, sent[i + 1].dts))
  }

  /** Every packet is stamped, and before the end of time, past which a strict muxer has no room. */
  ghost predicate Stamped(sent: seq<Stamps>) {
    forall p <- sent :: NOPTS < p.dts < INT64_MAX
  }

  /** The guard leaves a stamped packet alone exactly when it is in order and admissible. */
  lemma FixedLeavesIff(m: Muxer, ty: MediaType, last: int64, p: Stamps)
    requires !m.noTimestamps && Paced(ty) && NOPTS < p.dts < INT64_MAX
    ensures Fixed(m, ty, last, p) == p <==> (p.pts != NOPTS ==> p.dts <= p.pts) && Admissible(m, last, p.dts)
  {}

  lemma OrderlySnoc(m: Muxer, sent: seq<Stamps>, p: Stamps)
    ensures Orderly(m, sent + [p]) <==>
      && Orderly(m, sent) && p.dts != NOPTS && (p.pts != NOPTS ==> p.dts <= p.pts)
      && (sent != [] ==> Admissible(m, sent[|sent| - 1].dts, p.dts))
  {
    var all := sent + [p];
    assert all[|sent|] == p && forall i :: 0 <= i < |sent| ==> all[i] == sent[i];
    if Orderly(m, all) {
      assert forall q <- sent :: q in all;
      assert sent != [] ==> Admissible(m, all[|sent| - 1].dts, all[|sent| - 1 + 1].dts);
    }
  }

  function LastDts(sent: seq<Stamps>): int64 {
    if sent == [] then NOPTS else sent[|sent| - 1].dts
  }

  /** What one more packet of the output adds. */
  lemma InFileStep(m: Muxer, start: seq<int64>, run: seq<Handed>, t: nat)
    requires run != [] && (forall h <- run :: h.stream < |start|) && t < |start|
    ensures var (n, init, h) := (|run| - 1, run[..|run| - 1], run[|run| - 1]);
      var last := LastBefore(m, start, init, n)[t];
      if h.stream != t then
        && Sent(run, t) == Sent(init, t) && InFile(m, start, run, t) == InFile(m, start, init, t)
        && LastBefore(m, start, run, |run|)[t] == last
      else
        var r := Fixed(m, h.ty, last, h.pkt);
        && Sent(run, t) == Sent(init, t) + [h.pkt] && InFile(m, start, run, t) == InFile(m, start, init, t) + [r]
        && LastBefore(m, start, run, |run|)[t] == r.dts
  {
    hide Fixed;
    LastBeforePrefix(m, start, run, |run| - 1, |run| - 1);
  }

  /** A stream is muxed as it was handed over exactly when it was orderly, whatever else the output
      carries in between; and then the guard has seen its last dts. */
  lemma {:induction false} InFileIsSentIff(m: Muxer, start: seq<int64>, run: seq<Handed>, t: nat)
    requires !m.noTimestamps && (forall h <- run :: h.stream < |start|) && t < |start| && start[t] == NOPTS
    requires (forall h <- run :: h.stream == t ==> Paced(h.ty)) && Stamped(Sent(run, t))
    ensures |InFile(m, start, run, t)| == |Sent(run, t)|
    ensures InFile(m, start, run, t) == Sent(run, t) <==> Orderly(m, Sent(run, t))
    ensures InFile(m, start, run, t) == Sent(run, t) ==>
      LastBefore(m, start, run, |run|)[t] == LastDts(Sent(run, t))
  {
    if run != [] {
      InFileStep(m, start, run, t);
      hide Fixed, Orderly, Sent, InFile, LastBefore;
      var (n, init, h) := (|run| - 1, run[..|run| - 1], run[|run| - 1]);
      var was := Sent(init, t);
      StampedPrefix(was, Sent(run, t));
      InFileIsSentIff(m, start, init, t);
      if h.stream == t {
        var last := LastBefore(m, start, init, n)[t];
        FixedLeavesIff(m, h.ty, last, h.pkt);
        OrderlySnoc(m, was, h.pkt);
        SameSnoc(InFile(m, start, init, t), was, Fixed(m, h.ty, last, h.pkt), h.pkt);
      }
    }
  }

  lemma StampedPrefix(was: seq<Stamps>, now: seq<Stamps>)
    requires was <= now && Stamped(now)
    ensures Stamped(was) && (was < now ==> now[|was|] in now)
  {
    assert forall p <- was :: p in now;
  }

  lemma SameSnoc<T>(a: seq<T>, b: seq<T>, x: T, y: T)
    requires |a| == |b|
    ensures a + [x] == b + [y] <==> a == b && x == y
  {
    if a + [x] == b + [y] {
      assert a == (a + [x])[..|a|] == (b + [y])[..|a|] == b;
      assert x == (a + [x])[|a|] == (b + [y])[|a|] == y;
    }
  }

  // ---- what was delivered, in the file --------------------------------------------------------

  /** Every packet the lane keeps of stream s carries a dts that lands before the end of time, and
      nothing of it saturates on the way. */
  ghost predicate DtsLands(w: Window, src: Source, tbs: seq<Ratio>, run: seq<Arrival>, s: nat)
    requires src.Valid() && ValidRun(tbs, run)
  {
    forall k :: 0 <= k < |run| && run[k].stream == s && KeptAt(w, tbs, run, k) ==>
      && Unsaturated(w, RebaseAfter(tbs, run, k + 1), src, run[k].at.dts)
      && LandedStamps(w, RebaseAfter(tbs, run, k + 1), src, run[k].at).dts < INT64_MAX
  }

  lemma KnownStampLands(w: Window, rebase: int64, src: Source, p: Stamps)
    requires src.Valid() && Unsaturated(w, rebase, src, p.dts)
    ensures LandedStamps(w, rebase, src, p).dts != NOPTS
  {}

  lemma NothingDelivered(w: Window, src: Source, tbs: seq<Ratio>, run: seq<Arrival>, s: nat)
    requires src.Valid() && ValidRun(tbs, run)
    ensures Delivered(w, src, tbs, run, Of(run, s, 0)) == []
  {}

  lemma {:induction false} DeliveredIsStamped(w: Window, src: Source, tbs: seq<Ratio>, run: seq<Arrival>, s: nat,
                                              n: nat)
    requires src.Valid() && ValidRun(tbs, run) && n <= |run| && DtsLands(w, src, tbs, run, s)
    ensures Stamped(Delivered(w, src, tbs, run, Of(run, s, n)))
  {
    hide LandedStamps, RebaseAfter, KeptAt, CopyLane.Unsaturated, Of, Delivered;
    if n == 0 {
      NothingDelivered(w, src, tbs, run, s);
    } else {
      DeliveredIsStamped(w, src, tbs, run, s, n - 1);
      DeliveredStep(w, src, tbs, run, s, n - 1);
      if run[n - 1].stream == s && KeptAt(w, tbs, run, n - 1) {
        KnownStampLands(w, RebaseAfter(tbs, run, n), src, run[n - 1].at);
      }
    }
  }

  /** So the muxer's dts of what the lane delivered never steps back, and on a strict muxer advances
      below the end of time, whatever the output carries in between. */
  lemma DeliveredDtsAdvances(m: Muxer, start: seq<int64>, run: seq<Handed>, t: nat, w: Window, src: Source,
                             tbs: seq<Ratio>, arrivals: seq<Arrival>, s: nat, n: nat, i: nat, j: nat)
    requires i < j < |run| && !m.noTimestamps && (forall h <- run :: h.stream < |start|)
    requires run[i].stream == run[j].stream == t && (forall h <- run :: h.stream == t ==> Paced(h.ty))
    requires src.Valid() && ValidRun(tbs, arrivals) && n <= |arrivals| && DtsLands(w, src, tbs, arrivals, s)
    requires Sent(run, t) == Delivered(w, src, tbs, arrivals, Of(arrivals, s, n))
    ensures Muxed(m, start, run, i).dts <= Muxed(m, start, run, j).dts
    ensures !m.nonStrict && LastBefore(m, start, run, j)[t] < INT64_MAX ==>
              Muxed(m, start, run, i).dts < Muxed(m, start, run, j).dts
  {
    hide Muxed, Delivered, DtsLands, Of;
    DeliveredIsStamped(w, src, tbs, arrivals, s, n);
    forall k | i <= k < j + 1 && run[k].stream == t ensures run[k].pkt.dts != NOPTS {
      SentInRun(run, t, k);
    }
    MuxedDtsAdvances(m, start, run, i, j);
  }

  // ---- a stream in decode order ----------------------------------------------------------------

  /** Where a packet the lane keeps of stream s has a pts, it is not before the dts and lands. */
  ghost predicate PtsLands(w: Window, src: Source, tbs: seq<Ratio>, run: seq<Arrival>, s: nat)
    requires src.Valid() && ValidRun(tbs, run)
  {
    forall k :: 0 <= k < |run| && run[k].stream == s && KeptAt(w, tbs, run, k) && run[k].at.pts != NOPTS ==>
      run[k].at.dts <= run[k].at.pts && Unsaturated(w, RebaseAfter(tbs, run, k + 1), src, run[k].at.pts)
  }

  /** A strict muxer needs a time base at least as fine as the stream's, and a dts that advances. */
  ghost predicate Suits(m: Muxer, src: Source, run: seq<Arrival>, s: nat)
    requires src.Valid()
  {
    m.nonStrict || (
      && src.tb.num * src.outTb.den >= src.tb.den * src.outTb.num
      && forall i, j :: 0 <= i < j < |run| && run[i].stream == run[j].stream == s ==> run[i].at.dts < run[j].at.dts)
  }

  /** In a time base at least as fine no two stamps land on one tick. */
  lemma LandingKeepsApart(w: Window, rebase: int64, src: Source, s: int64, t: int64)
    requires src.Valid() && s < t && src.tb.num * src.outTb.den >= src.tb.den * src.outTb.num
    requires Unsaturated(w, rebase, src, s) && Unsaturated(w, rebase, src, t)
    ensures Landed(w, rebase, src, true, s) < Landed(w, rebase, src, true, t)
  {
    var off := if w.copyTs then 0 else Exact(rebase, MICROS, src.tb);
    ExactApart(s - off, t - off, src.tb, src.outTb);
  }

  lemma ExactApart(s: int, t: int, from: Ratio, to: Ratio)
    requires Positive(from) && Positive(to) && s < t && from.num * to.den >= from.den * to.num
    ensures Exact(s, from, to) < Exact(t, from, to)
  {
    var (a, d) := (from.num * to.den, from.den * to.num);
    PositiveProduct(from.den, to.num);
    Stride(s, t, a);
    RoundNearMonotone(s * a + d, t * a, d);
    RoundNearApart(s * a, d);
  }

  lemma Stride(s: int, t: int, a: int)
    requires s < t && a >= 0
    ensures s * a + a <= t * a
  {
    MulMonotone(a, s + 1, t);
  }

  lemma RoundNearApart(n: int, d: int)
    requires d > 0
    ensures RoundNear(n, d) < RoundNear(n + d, d)
  {
    RoundNearBounds(n, d);
    RoundNearBounds(n + d, d);
    if RoundNear(n + d, d) <= RoundNear(n, d) {
      MulMonotone(2 * d, RoundNear(n + d, d), RoundNear(n, d));
      HalfWay(n, d);
    }
  }

  /** Halves are rounded away from zero, so never up and then down. */
  lemma HalfWay(n: int, d: int)
    requires d > 0
    ensures 2 * d * RoundNear(n, d) == 2 * n + d ==> n >= 0
    ensures 2 * d * RoundNear(n + d, d) == 2 * (n + d) - d ==> n + d < 0
  {
    Quotient(2 * n + d, 2 * d);
    Quotient(d - 2 * n, 2 * d);
    Quotient(2 * (n + d) + d, 2 * d);
    Quotient(d - 2 * (n + d), 2 * d);
  }

  /** Two packets the lane keeps of a stream in decode order land in that order. */
  lemma KeptLandInOrder(m: Muxer, w: Window, src: Source, tbs: seq<Ratio>, run: seq<Arrival>, s: nat, i: nat, k: nat)
    requires src.Valid() && ValidRun(tbs, run) && s < |tbs| && DecodeOrdered(tbs, run, s)
    requires DtsLands(w, src, tbs, run, s) && Suits(m, src, run, s)
    requires i < k < |run| && run[i].stream == run[k].stream == s
    requires KeptAt(w, tbs, run, i) && KeptAt(w, tbs, run, k)
    ensures Admissible(m, LandedStamps(w, RebaseAfter(tbs, run, i + 1), src, run[i].at).dts,
                          LandedStamps(w, RebaseAfter(tbs, run, k + 1), src, run[k].at).dts)
  {
    hide Landed, KeptAt, CopyLane.Unsaturated, RebaseAfter;
    RebaseIsFixed(tbs, run, i, k + 1);
    var rebase := RebaseAfter(tbs, run, k + 1);
    assert w.(copyTs := w.copyTs || !true) == w;
    LandingKeepsOrder(w, rebase, src, true, run[i].at.dts, run[k].at.dts);
    if !m.nonStrict {
      LandingKeepsApart(w, rebase, src, run[i].at.dts, run[k].at.dts);
    }
  }

  /** What was delivered up to n is admissible before any later packet that is kept. */
  lemma {:induction false} DeliveredBefore(m: Muxer, w: Window, src: Source, tbs: seq<Ratio>, run: seq<Arrival>, s: nat,
                                           n: nat, k: nat)
    requires src.Valid() && ValidRun(tbs, run) && s < |tbs| && DecodeOrdered(tbs, run, s)
    requires DtsLands(w, src, tbs, run, s) && Suits(m, src, run, s)
    requires n <= k < |run| && run[k].stream == s && KeptAt(w, tbs, run, k)
    ensures forall p <- Delivered(w, src, tbs, run, Of(run, s, n)) ::
      Admissible(m, p.dts, LandedStamps(w, RebaseAfter(tbs, run, k + 1), src, run[k].at).dts)
  {
    hide LandedStamps, RebaseAfter, KeptAt, Delivered, Of, Admissible, DecodeOrdered, DtsLands, Suits;
    if n == 0 {
      NothingDelivered(w, src, tbs, run, s);
    } else {
      DeliveredBefore(m, w, src, tbs, run, s, n - 1, k);
      DeliveredStep(w, src, tbs, run, s, n - 1);
      if run[n - 1].stream == s && KeptAt(w, tbs, run, n - 1) {
        KeptLandInOrder(m, w, src, tbs, run, s, n - 1, k);
      }
    }
  }

  lemma KeptLandsOrdered(w: Window, src: Source, tbs: seq<Ratio>, run: seq<Arrival>, s: nat, k: nat)
    requires src.Valid() && ValidRun(tbs, run) && DtsLands(w, src, tbs, run, s) && PtsLands(w, src, tbs, run, s)
    requires k < |run| && run[k].stream == s && KeptAt(w, tbs, run, k)
    ensures var p := LandedStamps(w, RebaseAfter(tbs, run, k + 1), src, run[k].at);
      p.dts != NOPTS && (p.pts != NOPTS ==> p.dts <= p.pts)
  {
    hide KeptAt, RebaseAfter, CopyLane.Unsaturated, Landed;
    var (rebase, at) := (RebaseAfter(tbs, run, k + 1), run[k].at);
    KnownStampLands(w, rebase, src, at);
    UnknownStampLands(w, rebase, src);
    if at.pts != NOPTS {
      assert w.(copyTs := w.copyTs || !true) == w && Timed(at);
      LandingKeepsOrder(w, rebase, src, true, at.dts, at.pts);
    }
  }

  lemma UnknownStampLands(w: Window, rebase: int64, src: Source)
    requires src.Valid()
    ensures Landed(w, rebase, src, true, NOPTS) == NOPTS
  {}

  /** What the lane delivers of a stream in decode order, whose stamps land, is orderly. */
  lemma {:induction false} DeliveredIsOrderly(m: Muxer, w: Window, src: Source, tbs: seq<Ratio>, run: seq<Arrival>,
                                              s: nat, n: nat)
    requires src.Valid() && ValidRun(tbs, run) && n <= |run| && s < |tbs| && DecodeOrdered(tbs, run, s)
    requires DtsLands(w, src, tbs, run, s) && PtsLands(w, src, tbs, run, s) && Suits(m, src, run, s)
    ensures Orderly(m, Delivered(w, src, tbs, run, Of(run, s, n)))
  {
    hide LandedStamps, RebaseAfter, KeptAt, Delivered, Of, Admissible, DecodeOrdered, DtsLands, PtsLands, Suits;
    if n == 0 {
      NothingDelivered(w, src, tbs, run, s);
    } else {
      DeliveredIsOrderly(m, w, src, tbs, run, s, n - 1);
      DeliveredStep(w, src, tbs, run, s, n - 1);
      if run[n - 1].stream == s && KeptAt(w, tbs, run, n - 1) {
        var was := Delivered(w, src, tbs, run, Of(run, s, n - 1));
        KeptLandsOrdered(w, src, tbs, run, s, n - 1);
        DeliveredBefore(m, w, src, tbs, run, s, n - 1, n - 1);
        OrderlySnoc(m, was, LandedStamps(w, RebaseAfter(tbs, run, n), src, run[n - 1].at));
      }
    }
  }

  /** From one end of the lane to the other. An input was ended early, within the margin, and stream s of
      it was handed over as stream t of an output that had none of it yet. Then the output was handed
      exactly what the lane makes of the whole input; it carries that unchanged if and only if that is
      orderly; and so it is when the stream is in decode order, lands, and suits the muxer. */
  lemma FileCarriesTheStream(p: Passage, src: Source, s: nat, m: Muxer, start: seq<int64>, run: seq<Handed>, t: nat)
    requires p.Valid() && p.WithinMargin()
    requires src.Valid() && p.copied(s) && s < |p.tbs| && AllTimed(p.tbs, p.Whole(), s)
    requires DtsLands(p.w, src, p.tbs, p.Whole(), s)
    requires !m.noTimestamps && (forall h <- run :: h.stream < |start|) && t < |start| && start[t] == NOPTS
    requires forall h <- run :: h.stream == t ==> Paced(h.ty)
    requires Sent(run, t) == Delivered(p.w, src, p.tbs, p.Read(), Of(p.Read(), s, p.stop))
    ensures var all := Delivered(p.w, src, p.tbs, p.Whole(), Of(p.Whole(), s, p.n));
      && Sent(run, t) == all
      && (InFile(m, start, run, t) == all <==> Orderly(m, all))
      && (DecodeOrdered(p.tbs, p.Whole(), s) && PtsLands(p.w, src, p.tbs, p.Whole(), s) && Suits(m, src, p.Whole(), s)
          ==> InFile(m, start, run, t) == all)
  {
    hide Delivered, Of, DtsLands, PtsLands, DecodeOrdered, Suits, Orderly, Sent, InFile, Passage.WithinMargin, AllTimed,
      Stamped;
    CopiedStreamSurvives(p, src, s, p.input.Route(s, p.stop));
    DeliveredIsStamped(p.w, src, p.tbs, p.Whole(), s, p.n);
    InFileIsSentIff(m, start, run, t);
    if DecodeOrdered(p.tbs, p.Whole(), s) && PtsLands(p.w, src, p.tbs, p.Whole(), s) && Suits(m, src, p.Whole(), s) {
      DeliveredIsOrderly(m, p.w, src, p.tbs, p.Whole(), s, p.n);
    }
  }
}
