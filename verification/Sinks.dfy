/** Pulling a graph output: which of its frames reach the encoder, when, and when it is done. */
module Sinks {
  import opened Timeline

  // What the sink answers each time it is asked for a frame. A frame's samples count for audio.
  datatype Reply = Frame(pts: int64, samples: int64) | Again | Eof | Broken

  /** One graph output as it was set up: its whole series of answers, endless or not, its time
      base, and where the output's window ends. A rate of zero is an unknown one. */
  datatype Tap = Tap(reply: nat -> Reply, audio: bool, rate: nat, tb: Ratio, cutoff: int64, offset: int64) {
    predicate Valid() {
      Positive(tb)
    }

    /** How far an audio frame reaches, in the sink's time base. */
    function Length(samples: int64): int64
      requires Valid()
    {
      if rate > 0 then Rescale(samples, Ratio(1, rate), tb) else samples
    }

    /** Where the next untimed audio frame belongs, before answer k. */
    function NextPts(k: nat): int64
      requires Valid()
      decreases k, 0
    {
      if k == 0 then 0
      else match reply(k - 1)
        case Frame(pts, samples) => if audio then TsAdd(Stamp(k - 1, pts), Length(samples)) else NextPts(k - 1)
        case _ => NextPts(k - 1)
    }

    /** The time frame k is encoded at. */
    function Stamp(k: nat, pts: int64): int64
      requires Valid()
      decreases k, 1
    {
      if audio && pts == NOPTS then NextPts(k) else pts
    }

    /** A stamp at or past the end of the window. */
    predicate PastWindow(stamp: int64)
      requires Valid()
    {
      cutoff != INT64_MAX && stamp != NOPTS && TsAdd(Rescale(stamp, tb, MICROS), offset) >= cutoff
    }

    predicate Past(k: nat)
      requires Valid()
    {
      reply(k).Frame? && PastWindow(Stamp(k, reply(k).pts))
    }

    /** Answer k is the last of one pull. */
    predicate Halts(k: nat)
      requires Valid()
    {
      !reply(k).Frame? || Past(k)
    }

    /** Answer k ends the output for good. */
    predicate Ends(k: nat)
      requires Valid()
    {
      reply(k).Eof? || Past(k)
    }

    // Whether one pull that starts at answer k comes back, and whether the output is ever through.
    ghost predicate PausesAfter(k: nat)
      requires Valid()
    {
      exists h: nat :: k <= h && Halts(h)
    }

    ghost predicate Pausing()
      requires Valid()
    {
      forall k: nat :: PausesAfter(k)
    }

    ghost predicate Ending()
      requires Valid()
    {
      exists k: nat :: Ends(k)
    }

    ghost function AnEnd(): (k: nat)
      requires Valid() && Ending()
      ensures Ends(k)
    {
      var k: nat :| Ends(k);
      k
    }

    /** The stamps of the frames that answers 0..k put inside the window. */
    function Kept(k: nat): seq<int64>
      requires Valid()
    {
      if k == 0 then []
      else Kept(k - 1) + (if reply(k - 1).Frame? && !Past(k - 1) then [Stamp(k - 1, reply(k - 1).pts)] else [])
    }
  }

  /** A graph output while the job runs. */
  class Sink {
    const tap: Tap
    const encodes: nat -> bool    // whether each hand-over to the encoder succeeds
    var pos: nat                  // answers taken
    var done: bool
    var nextPts: int64
    var encoded: seq<int64>       // what the encoder was handed

    ghost predicate Valid()
      reads this
    {
      && tap.Valid() && nextPts == tap.NextPts(pos) && encoded == tap.Kept(pos)
      && (done <==> pos > 0 && tap.Ends(pos - 1))
      && (forall k :: 0 <= k < pos - 1 ==> !tap.Ends(k))
    }

    /** How many answers it can still take before it is through; 0 when it is, or never will be. */
    ghost function Left(): nat
      requires Valid()
      reads this
    {
      if done || !tap.Ending() then 0 else tap.AnEnd() + 1 - pos
    }

    /** A sink only moves forward, and one that is done does not move at all: no frame reaches its
        encoder any more. */
    twostate predicate Keeps()
      reads this
    {
      && old(pos) <= pos && old(encoded) <= encoded
      && (old(done) ==> done && pos == old(pos) && encoded == old(encoded))
    }

    /** The sink was pulled until it had nothing ready, or was through. */
    ghost predicate Settled()
      reads this
    {
      tap.Valid() && pos > 0 && tap.Halts(pos - 1)
    }

    /** Answer k was no failure, nor was encoding its frame. */
    predicate Clean(k: nat)
      requires tap.Valid()
    {
      !tap.reply(k).Broken? && (tap.reply(k).Frame? && !tap.Past(k) ==> encodes(k))
    }

    twostate lemma LeftFalls()
      requires old(Valid()) && Valid() && Keeps()
      ensures Left() <= old(Left())
      ensures !old(done) && old(pos) < pos && tap.Ending() ==> Left() < old(Left())
    {}

    constructor (tap: Tap, encodes: nat -> bool)
      requires tap.Valid()
      ensures Valid() && !done && pos == 0 && this.tap == tap && this.encodes == encodes
    {
      this.tap, this.encodes := tap, encodes;
      pos, done, nextPts, encoded := 0, false, 0, [];
    }

    /** One sink's share of pull_sinks: encode until the sink has nothing ready, ends, or passes the
        window. `halt` is any later answer at which it will stop. */
    method Pull(ghost halt: nat) returns (ok: bool)
      requires Valid() && !done && pos <= halt && tap.Halts(halt)
      modifies `pos, `done, `nextPts, `encoded
      ensures Valid() && old(pos) < pos <= halt + 1
      ensures old(encoded) <= encoded
      // it took everything up to the first answer that stops a pull, and that answer decides
      ensures forall k :: old(pos) <= k < pos - 1 ==> !tap.Halts(k)
      ensures ok ==> Settled()
      ensures ok <==> forall k :: old(pos) <= k < pos ==> Clean(k)
      ensures done <==> tap.Ends(pos - 1)
    {
      hide Tap.Length, Tap.PastWindow;
      while true
        invariant Valid() && !done && old(pos) <= pos <= halt && old(encoded) <= encoded
        invariant forall k :: old(pos) <= k < pos ==> !tap.Halts(k) && Clean(k)
        decreases halt - pos
      {
        var r := tap.reply(pos);
        pos := pos + 1;
        match r {
          case Eof =>
            done := true;
            return true;
          case Again => return true;
          case Broken =>
            assert !Clean(pos - 1);
            return false;
          case Frame(framePts, samples) =>
            var pts := framePts;
            if tap.audio {
              if pts == NOPTS { pts := nextPts; }
              nextPts := TsAdd(pts, tap.Length(samples));
            }
            if tap.PastWindow(pts) {
              done := true;
              return true;
            }
            encoded := encoded + [pts];
            if !encodes(pos - 1) {
              assert !Clean(pos - 1);
              return false;
            }
        }
      }
    }
  }

  // ---- what the series of answers implies ----------------------------------------

  /** Untimed audio continues from the end of the frame before it, however many times the sink said
      "not yet" in between. */
  lemma {:induction false} UntimedAudioTiles(t: Tap, j: nat, k: nat)
    requires t.Valid() && t.audio && j < k && t.reply(j).Frame?
    requires forall m :: j < m < k ==> !t.reply(m).Frame?
    ensures t.NextPts(k) == TsAdd(t.Stamp(j, t.reply(j).pts), t.Length(t.reply(j).samples))
    ensures t.reply(k).Frame? && t.reply(k).pts == NOPTS ==> t.Stamp(k, NOPTS) == t.NextPts(k)
    decreases k
  {
    if k > j + 1 {
      UntimedAudioTiles(t, j, k - 1);
    }
  }

  /** A stamp the sink gives is the one the frame is encoded at; a frame that has none and is no sound is encoded
      without, wherever the window ends. */
  lemma StampIsKept(t: Tap, k: nat, pts: int64)
    requires t.Valid()
    ensures pts != NOPTS || !t.audio ==> t.Stamp(k, pts) == pts
    ensures !t.PastWindow(NOPTS)
  {}

  /** Samples last as long as they do at the sink's rate, to within half a tick; at an unknown rate they are
      counted. */
  lemma LengthLasts(t: Tap, samples: int64)
    requires t.Valid()
    ensures t.rate == 0 ==> t.Length(samples) == samples
    ensures t.rate > 0 && InRange(Exact(samples, Ratio(1, t.rate), t.tb)) ==>
      Gap(InSeconds(t.Length(samples), t.tb), samples as real / t.rate as real) <= InSeconds(1, t.tb) / 2.0
  {
    if t.rate > 0 {
      hide Exact;
      RescaleError(samples, Ratio(1, t.rate), t.tb);
      assert InSeconds(samples, Ratio(1, t.rate)) == samples as real / t.rate as real;
    }
  }

  /** Which of the first k answers are frames inside the window. */
  function Inside(t: Tap, k: nat): (js: seq<nat>)
    requires t.Valid()
    ensures forall i :: 0 <= i < |js| ==> js[i] < k && t.reply(js[i]).Frame?
  {
    if k == 0 then [] else Inside(t, k - 1) + (if t.reply(k - 1).Frame? && !t.Past(k - 1) then [k - 1] else [])
  }

  lemma {:induction false} InsideIsExact(t: Tap, k: nat)
    requires t.Valid()
    ensures forall j: nat :: j in Inside(t, k) <==> j < k && t.reply(j).Frame? && !t.Past(j)
    ensures forall a, b :: 0 <= a < b < |Inside(t, k)| ==> Inside(t, k)[a] < Inside(t, k)[b]
  {
    hide Tap.Past;
    if k > 0 {
      InsideIsExact(t, k - 1);
    }
  }

  /** The encoder is handed exactly the frames that are not past the window, in order, at their stamps. */
  lemma {:induction false} KeptIsExact(t: Tap, k: nat)
    requires t.Valid()
    ensures |t.Kept(k)| == |Inside(t, k)|
    ensures forall i :: 0 <= i < |t.Kept(k)| ==>
      t.Kept(k)[i] == t.Stamp(Inside(t, k)[i], t.reply(Inside(t, k)[i]).pts)
  {
    hide Tap.Past, Tap.Stamp, Tap.NextPts;
    if k > 0 {
      KeptIsExact(t, k - 1);
    }
  }

  /** From `from` on the sink hands out a timed frame whenever it is asked, as an endless filter does,
      and until one is past the window their stamps rise. Their times fit the engine's arithmetic. */
  ghost predicate Endless(t: Tap, from: nat)
    requires t.Valid()
  {
    forall k: nat :: k >= from ==>
      && t.reply(k).Frame? && t.reply(k).pts != NOPTS && InRange(Exact(t.reply(k).pts, t.tb, MICROS))
      && (t.Past(k) || (t.reply(k + 1).Frame? && t.reply(k).pts < t.reply(k + 1).pts))
  }

  /** The first tick of the sink's time base that is sure to be past the window. */
  function WindowTick(t: Tap): int
    requires t.Valid()
  {
    Exact(t.cutoff - t.offset, MICROS, t.tb) + 1
  }

  lemma WindowTickIsPast(t: Tap)
    requires t.Valid()
    ensures Exact(WindowTick(t), t.tb, MICROS) >= t.cutoff - t.offset
  {
    var (c, n, d) := (t.cutoff - t.offset, t.tb.num * 1_000_000, t.tb.den);
    var p := WindowTick(t);
    PositiveProduct(t.tb.num, 1_000_000);
    RoundNearBounds(c * d, n);
    assert 2 * n * (p - 1) >= 2 * (c * d) - n;
    TickReaches(c, n, d, p);
    RoundNearMonotone(c * d, p * n, d);
    RoundNearWhole(c, d);
  }

  lemma TickReaches(c: int, n: int, d: int, p: int)
    requires 2 * n * (p - 1) >= 2 * (c * d) - n && n > 0
    ensures p * n >= c * d
  {}

  /** A known stamp from that tick on is past the window: rounding cannot bring it back. */
  lemma PastFromWindowTick(t: Tap, k: nat)
    requires t.Valid() && t.cutoff != INT64_MAX && t.reply(k).Frame? && t.reply(k).pts != NOPTS
    requires InRange(Exact(t.reply(k).pts, t.tb, MICROS)) && t.reply(k).pts >= WindowTick(t)
    ensures t.Past(k)
  {
    WindowTickIsPast(t);
    ExactMonotone(WindowTick(t), t.reply(k).pts, t.tb, MICROS);
  }

  /** So the window ends even an endless sink, after no more frames than there are ticks between the
      first stamp and the window's end. */
  lemma {:induction false} EndlessSinkEnds(t: Tap, from: nat) returns (q: nat)
    requires t.Valid() && t.cutoff != INT64_MAX && Endless(t, from)
    ensures from <= q <= from + Max(0, WindowTick(t) - t.reply(from).pts) && t.Past(q)
    decreases WindowTick(t) - t.reply(from).pts
  {
    if t.Past(from) {
      return from;
    }
    if t.reply(from).pts >= WindowTick(t) {
      PastFromWindowTick(t, from);
    }
    q := EndlessSinkEnds(t, from + 1);
  }

  /** Whatever the sink answered before: from any point, each pull comes back and the sink gets done. */
  lemma EndlessSinkIsBounded(t: Tap, from: nat)
    requires t.Valid() && t.cutoff != INT64_MAX && Endless(t, from)
    ensures t.Pausing() && t.Ending()
  {
    forall k: nat ensures t.PausesAfter(k) {
      var q := EndlessSinkEnds(t, if k >= from then k else from);
      assert t.Halts(q);
    }
    var q := EndlessSinkEnds(t, from);
    assert t.Ends(q);
  }

  /** It is the window that does it: a sink that always has a frame is pulled for ever without one. */
  lemma NoWindowNoEnd(t: Tap, from: nat)
    requires t.Valid() && t.cutoff == INT64_MAX && forall k: nat :: k >= from ==> t.reply(k).Frame?
    ensures !t.PausesAfter(from) && forall k: nat :: k >= from ==> !t.Ends(k)
  {}
}
