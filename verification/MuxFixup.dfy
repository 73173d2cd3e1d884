/** The timestamp guard every packet passes on its way to a muxer, and what it guarantees
    over a whole run of interleaved streams. */
module MuxFixup {
  import opened Timeline

  datatype MediaType = Video | Audio | Subtitle | Data

  datatype Stamps = Stamps(pts: int64, dts: int64)

  // The two muxer flags the guard consults.
  datatype Muxer = Muxer(noTimestamps: bool, nonStrict: bool)

  const MAX_MUX_STREAMS: nat := 64

  /** The least dts the muxer accepts after `last`, saturating at the end of time. */
  function Floor(m: Muxer, last: int64): int64 {
    TsAdd(last, if m.nonStrict then 0 else 1)
  }

  predicate Paced(ty: MediaType) {
    ty.Audio? || ty.Video? || ty.Subtitle?
  }

  /** A dts past its pts is replaced, with the pts, by the middle of the two and `last` plus a tick. */
  function Guessed(last: int64, p: Stamps): Stamps {
    if p.dts != NOPTS && p.pts != NOPTS && p.dts > p.pts then
      var g := Median3(p.pts, p.dts, TsAdd(last, 1));
      Stamps(g, g)
    else p
  }

  /** A dts that does not advance is moved up to the floor, and its pts with it. */
  function Advanced(m: Muxer, ty: MediaType, last: int64, p: Stamps): Stamps {
    if Paced(ty) && p.dts != NOPTS && last != NOPTS && p.dts < Floor(m, last) then
      Stamps(if p.pts >= p.dts then Max(p.pts, Floor(m, last)) else p.pts, Floor(m, last))
    else p
  }

  function Fixed(m: Muxer, ty: MediaType, last: int64, p: Stamps): Stamps {
    if m.noTimestamps then p else Advanced(m, ty, last, Guessed(last, p))
  }

  /** One output file's guard state: the last dts handed over for each of its streams. */
  class Output {
    const muxer: Muxer
    const lastDts: array<int64>

    constructor (muxer: Muxer)
      ensures this.muxer == muxer && fresh(lastDts) && lastDts.Length == MAX_MUX_STREAMS
      ensures forall i :: 0 <= i < lastDts.Length ==> lastDts[i] == NOPTS
    {
      this.muxer := muxer;
      lastDts := new int64[MAX_MUX_STREAMS](_ => NOPTS);
    }

    /** mux_fixup_ts: an index outside the table leaves packet and table alone. */
    method Fixup(index: int, ty: MediaType, pkt: Stamps) returns (r: Stamps)
      requires lastDts.Length == MAX_MUX_STREAMS
      modifies lastDts
      ensures !(0 <= index < MAX_MUX_STREAMS) ==> r == pkt && lastDts[..] == old(lastDts[..])
      ensures 0 <= index < MAX_MUX_STREAMS ==>
                && r == Fixed(muxer, ty, old(lastDts[index]), pkt)
                && lastDts[..] == old(lastDts[..])[index := r.dts]
    {
      r := pkt;
      if index < 0 || index >= MAX_MUX_STREAMS {
        return;
      }
      var last := lastDts[index];
      if !muxer.noTimestamps {
        if r.dts != NOPTS && r.pts != NOPTS && r.dts > r.pts {
          var guess := Median3(r.pts, r.dts, TsAdd(last, 1));
          r := Stamps(guess, guess);
        }
        if Paced(ty) && r.dts != NOPTS && last != NOPTS {
          var max := TsAdd(last, if muxer.nonStrict then 0 else 1);
          if r.dts < max {
            if r.pts >= r.dts {
              r := r.(pts := Max(r.pts, max));
            }
            r := r.(dts := max);
          }
        }
      }
      lastDts[index] := r.dts;
    }
  }

  // ---- one packet ---------------------------------------------------------

  /** A packet that carries both stamps leaves with dts <= pts, whatever its media type. */
  lemma FixedOrdersStamps(m: Muxer, ty: MediaType, last: int64, p: Stamps)
    requires !m.noTimestamps && p.dts != NOPTS && p.pts != NOPTS
    ensures Fixed(m, ty, last, p).dts <= Fixed(m, ty, last, p).pts
  {}

  /** No known stamp becomes unknown and no unknown stamp is invented. */
  lemma FixedKeepsKnowledge(m: Muxer, ty: MediaType, last: int64, p: Stamps)
    ensures Fixed(m, ty, last, p).dts == NOPTS <==> p.dts == NOPTS
    ensures Fixed(m, ty, last, p).pts == NOPTS <==> p.pts == NOPTS
  {}

  /** What a muxer accepts after `last`: anything after nothing, then an advancing dts. */
  predicate Admissible(m: Muxer, last: int64, dts: int64) {
    last == NOPTS || (if m.nonStrict then last <= dts else last < dts)
  }

  /** The guard makes a dts admissible exactly when an admissible one exists. */
  lemma FixedIsAdmissible(m: Muxer, ty: MediaType, last: int64, p: Stamps)
    requires !m.noTimestamps && Paced(ty) && p.dts != NOPTS
    ensures Admissible(m, last, Fixed(m, ty, last, p).dts) <==> (m.nonStrict || last != INT64_MAX)
    ensures (exists d: int64 :: Admissible(m, last, d)) <==> (m.nonStrict || last != INT64_MAX)
  {
    if m.nonStrict || last != INT64_MAX {
      assert Admissible(m, last, INT64_MAX);
    }
  }

  /** Among the admissible stamps not before the packet's own, the guard takes the least. */
  lemma FixedIsLeast(m: Muxer, ty: MediaType, last: int64, p: Stamps, d: int64)
    requires !m.noTimestamps && Paced(ty) && p.dts != NOPTS
    requires p.pts == NOPTS || p.dts <= p.pts
    requires p.dts <= d && Admissible(m, last, d)
    ensures p.dts <= Fixed(m, ty, last, p).dts <= d
  {}

  /** Of a packet in order only what has to move moves: the pts is its own, or the new dts if that has passed
      it. */
  lemma FixedMovesPts(m: Muxer, ty: MediaType, last: int64, p: Stamps)
    requires p.dts != NOPTS && p.pts != NOPTS && p.dts <= p.pts
    ensures Fixed(m, ty, last, p).pts == Max(p.pts, Fixed(m, ty, last, p).dts)
    ensures Fixed(m, ty, last, p).dts >= p.dts
  {}

  /** A muxer that asks for no timestamps gets them as they are; and a stream that is not paced only ever has
      a dts past its pts put right, to somewhere between the two. */
  lemma FixedSparesOthers(m: Muxer, ty: MediaType, last: int64, p: Stamps)
    ensures m.noTimestamps ==> Fixed(m, ty, last, p) == p
    ensures !m.noTimestamps && !Paced(ty) ==>
      var r := Fixed(m, ty, last, p);
      if p.dts != NOPTS && p.pts != NOPTS && p.dts > p.pts then r.dts == r.pts && p.pts <= r.pts <= p.dts else r == p
  {}

  /** A dts past its pts is pulled back to the pts, or to the first stamp the muxer would take. */
  lemma FixedGuess(m: Muxer, ty: MediaType, last: int64, p: Stamps)
    requires !m.noTimestamps && Paced(ty) && p.dts != NOPTS && p.pts != NOPTS && p.dts > p.pts
    ensures var r := Fixed(m, ty, last, p);
      && r.dts == r.pts
      && (last < p.pts ==> r.pts == p.pts)
      && (p.pts <= last < p.dts ==> r.pts == last + 1)
      && (p.dts <= last ==> r.pts == Floor(m, last))
  {}

  /** A packet already in order and admissible passes through untouched. */
  lemma FixedLeavesValid(m: Muxer, ty: MediaType, last: int64, p: Stamps)
    requires p.dts == NOPTS || p.pts == NOPTS || p.dts <= p.pts
    requires p.dts == NOPTS || Admissible(m, last, p.dts)
    ensures Fixed(m, ty, last, p) == p
  {}

  // ---- a run of interleaved streams -----------------------------------------

  // One packet on its way to the muxer: the stream it belongs to, and its stamps.
  datatype Handed = Handed(stream: nat, ty: MediaType, pkt: Stamps)

  /** The guard's table before packet k of the run. */
  function LastBefore(m: Muxer, start: seq<int64>, run: seq<Handed>, k: nat): (lasts: seq<int64>)
    requires k <= |run| && forall h <- run :: h.stream < |start|
    ensures |lasts| == |start|
  {
    if k == 0 then start
    else
      var lasts := LastBefore(m, start, run, k - 1);
      var h := run[k - 1];
      lasts[h.stream := Fixed(m, h.ty, lasts[h.stream], h.pkt).dts]
  }

  /** What packet k of the run is muxed as. */
  function Muxed(m: Muxer, start: seq<int64>, run: seq<Handed>, k: nat): Stamps
    requires k < |run| && forall h <- run :: h.stream < |start|
  {
    Fixed(m, run[k].ty, LastBefore(m, start, run, k)[run[k].stream], run[k].pkt)
  }

  /** Every packet of stream s from i up to (not including) j carries a dts and is paced. */
  ghost predicate StampedSegment(run: seq<Handed>, s: nat, i: nat, j: nat)
    requires i <= j <= |run|
  {
    forall k :: i <= k < j && run[k].stream == s ==> Paced(run[k].ty) && run[k].pkt.dts != NOPTS
  }

  /** Inside such a segment the table never falls below what was muxed at its start. */
  lemma {:induction false} LastNeverFalls(m: Muxer, start: seq<int64>, run: seq<Handed>, i: nat, j: nat)
    requires i < j <= |run| && !m.noTimestamps && forall h <- run :: h.stream < |start|
    requires StampedSegment(run, run[i].stream, i, j)
    ensures LastBefore(m, start, run, j)[run[i].stream] >= Muxed(m, start, run, i).dts
    ensures LastBefore(m, start, run, j)[run[i].stream] != NOPTS
  {
    if j == i + 1 {
      FixedKeepsKnowledge(m, run[i].ty, LastBefore(m, start, run, i)[run[i].stream], run[i].pkt);
    } else {
      LastNeverFalls(m, start, run, i, j - 1);
    }
  }

  /** The dts handed to a timestamped muxer never steps back within a stream, and on a strict
      muxer advances unless it has already reached the end of time. */
  lemma {:induction false} MuxedDtsAdvances(m: Muxer, start: seq<int64>, run: seq<Handed>, i: nat, j: nat)
    requires i < j < |run| && !m.noTimestamps && forall h <- run :: h.stream < |start|
    requires run[i].stream == run[j].stream && StampedSegment(run, run[i].stream, i, j + 1)
    ensures Muxed(m, start, run, i).dts <= Muxed(m, start, run, j).dts
    ensures !m.nonStrict && LastBefore(m, start, run, j)[run[j].stream] < INT64_MAX ==>
              Muxed(m, start, run, i).dts < Muxed(m, start, run, j).dts
  {
    LastNeverFalls(m, start, run, i, j);
    FixedIsAdmissible(m, run[j].ty, LastBefore(m, start, run, j)[run[j].stream], run[j].pkt);
  }

  /** An unknown dts resets the guard: the next stamp of the stream is free to step back. */
  lemma UnknownDtsResets(m: Muxer, ty: MediaType, last: int64, pts: int64, p: Stamps)
    requires p.dts != NOPTS && (p.pts == NOPTS || p.dts <= p.pts)
    ensures var reset := Fixed(m, ty, last, Stamps(pts, NOPTS)).dts;
            reset == NOPTS && Fixed(m, ty, reset, p) == p
  {}
}
