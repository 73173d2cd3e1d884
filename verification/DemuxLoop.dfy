/** The demux loop of one process job: every input read in turn, each packet handed to the three
    lanes, each input ended once, and the whole loop stopping. */
module DemuxLoop {
  import opened Timeline
  import opened GraphInput
  import opened Sinks
  import EarlyEof

  datatype Packet = Packet(stream: nat, dts: int64, pts: int64)

  // One answer of a demuxer. It may also leave an error behind on its byte stream.
  datatype Read = Got(packet: Packet) | End | Fail

  /** A demuxer as a series of answers, endless or not, the byte stream's state after each, and
      the time past which its packets are past every output. */
  datatype Input = Input(read: nat -> Read, ioFailed: nat -> bool, tb: nat -> Ratio, cutoff: int64) {
    ghost predicate Valid() {
      forall stream: nat :: Positive(tb(stream))
    }

    predicate PastCutoff(p: Packet)
      requires Positive(tb(p.stream))
    {
      var t := if p.dts != NOPTS then p.dts else p.pts;
      t != NOPTS && EarlyEof.Ends(Rescale(t, tb(p.stream), MICROS), cutoff)
    }

    /** Answer k is the end of what is used of this input. */
    predicate Stops(k: nat)
      requires read(k).Got? ==> Positive(tb(read(k).packet.stream))
    {
      read(k).Got? ==> PastCutoff(read(k).packet)
    }

    /** The first answer that stops it is k, and it is no failure. */
    ghost predicate StopsFirstAt(k: nat)
      requires Valid()
    {
      Stops(k) && !read(k).Fail? && !ioFailed(k) && forall j :: 0 <= j < k ==> !Stops(j)
    }

    ghost predicate Finite()
      requires Valid()
    {
      exists k: nat :: Stops(k)
    }

    ghost function AStop(): (k: nat)
      requires Valid() && Finite()
      ensures Stops(k)
    {
      var k: nat :| Stops(k);
      k
    }

    /** Which of the first n answers are packets of one stream, in demux order. */
    function Route(stream: nat, n: nat): seq<nat> {
      if n == 0 then []
      else Route(stream, n - 1) + (if read(n - 1).Got? && read(n - 1).packet.stream == stream then [n - 1] else [])
    }
  }

  // Whether a target takes the m-th packet it is handed, and what each target was handed so far.
  type Outcome = (nat, nat) -> bool
  type Books = seq<seq<nat>>

  // Where a consumer takes its packets from.
  datatype Wire = Wire(input: nat, stream: nat)

  // What a decoder makes of one packet: the frames with the graph's answers to them.
  datatype Decoded = Decoded(accepts: bool, frames: seq<(Frame, Fate)>, sound: bool) {
    predicate Healthy() {
      accepts && sound
    }

    /** Nothing about the packet fails, down to the graph taking its frames. */
    predicate Smooth() {
      Healthy() && forall f <- frames :: !f.1.Refused?
    }

    function Frames(): seq<Frame> {
      seq(|frames|, n requires 0 <= n < |frames| => frames[n].0)
    }
  }

  /** What libav answers a job: the decoders by graph input and number of packets sent, their
      flushes and the closing of their sources; and whether each packet handed to a copy or
      subtitle target goes through. */
  datatype Oracle = Oracle(decode: (nat, nat) -> Decoded, flush: nat -> Decoded, closes: nat -> bool,
                           copies: Outcome, subs: Outcome, flushesSub: nat -> bool) {
    predicate Decodes(p: nat, m: nat) {
      decode(p, m).Healthy()
    }

    /** The frames graph input p gets out of the first n packets its decoder is sent. */
    function Frames(p: nat, n: nat): seq<Frame> {
      if n == 0 then [] else Frames(p, n - 1) + decode(p, n - 1).Frames()
    }
  }

  /** All the frames of every packet, in order: those of packet m stand behind those of the m before it. */
  lemma {:induction false} EveryFrame(o: Oracle, p: nat, n: nat, m: nat, j: nat)
    requires m < n && j < |o.decode(p, m).frames|
    ensures |o.Frames(p, m)| + j < |o.Frames(p, n)|
    ensures o.Frames(p, n)[|o.Frames(p, m)| + j] == o.decode(p, m).frames[j].0
    ensures |o.Frames(p, m + 1)| == |o.Frames(p, m)| + |o.decode(p, m).frames|
  {
    if m < n - 1 {
      EveryFrame(o, p, n - 1, m, j);
    }
  }

  ghost predicate Wired(wires: seq<Wire>, inputs: nat) {
    forall t :: 0 <= t < |wires| ==> wires[t].input < inputs
  }

  /** The inputs, and where each graph input, copy target and subtitle target takes its packets. */
  datatype Job = Job(inputs: seq<Input>, pads: seq<Wire>, copies: seq<Wire>, subs: seq<Wire>) {
    ghost predicate Valid() {
      && (forall i :: 0 <= i < |inputs| ==> inputs[i].Valid())
      && Wired(pads, |inputs|) && Wired(copies, |inputs|) && Wired(subs, |inputs|)
    }

    function StreamAt(i: nat, k: nat): nat
      requires i < |inputs| && inputs[i].read(k).Got?
    {
      inputs[i].read(k).packet.stream
    }

    /** A copy or subtitle target takes packets of input i. */
    predicate FeedsLane(i: nat) {
      exists w <- copies + subs :: w.input == i
    }
  }

  ghost predicate Rising(s: seq<nat>) {
    forall a, b :: 0 <= a < b < |s| ==> s[a] < s[b]
  }

  lemma {:induction false} RouteIsExact(input: Input, stream: nat, n: nat)
    ensures forall k :: k in input.Route(stream, n) <==>
      0 <= k < n && input.read(k).Got? && input.read(k).packet.stream == stream
    ensures Rising(input.Route(stream, n))
  {
    if n > 0 {
      RouteIsExact(input, stream, n - 1);
      var before := input.Route(stream, n - 1);
      assert forall a :: 0 <= a < |before| ==> before[a] in before;
    }
  }

  // ---- handing packets out -------------------------------------------------------

  /** Every consumer was handed a prefix of its packets among those taken so far; and when `exact`,
      all of them, and took each one. */
  ghost predicate Served(inputs: seq<Input>, wires: seq<Wire>, takes: Outcome, got: Books, pos: seq<nat>, exact: bool)
    requires |pos| == |inputs| && Wired(wires, |inputs|)
  {
    && |got| == |wires|
    && forall t :: 0 <= t < |wires| ==>
        var all := inputs[wires[t].input].Route(wires[t].stream, pos[wires[t].input]);
        got[t] <= all && (exact ==> got[t] == all && forall m :: 0 <= m < |all| ==> takes(t, m))
  }

  function Share(w: Wire, i: nat, stream: nat, k: nat): seq<nat> {
    if w == Wire(i, stream) then [k] else []
  }

  /** One packet goes to every consumer wired to its stream, unless one of them failed first. */
  ghost predicate Handed(wires: seq<Wire>, takes: Outcome, was: Books, now: Books,
                         i: nat, stream: nat, k: nat, ok: bool)
  {
    && |was| == |now| == |wires|
    && forall t :: 0 <= t < |wires| ==>
        var all := was[t] + Share(wires[t], i, stream, k);
        && was[t] <= now[t] <= all
        && (ok ==> now[t] == all && (wires[t] == Wire(i, stream) ==> takes(t, |was[t]|)))
  }

  method HandOut(wires: seq<Wire>, got: Books, takes: Outcome, i: nat, stream: nat, k: nat)
    returns (ok: bool, now: Books)
    requires |got| == |wires|
    ensures Handed(wires, takes, got, now, i, stream, k, ok)
    ensures ok <==> forall t :: 0 <= t < |wires| && wires[t] == Wire(i, stream) ==> takes(t, |got[t]|)
  {
    now := got;
    for t := 0 to |wires|
      invariant HandedUpTo(wires, takes, got, now, i, stream, k, t)
    {
      if wires[t].input != i || wires[t].stream != stream { continue; }
      HandedSoFar(wires, takes, got, now, i, stream, k, t);
      now := now[t := now[t] + [k]];
      if !takes(t, |now[t]| - 1) {
        return false, now;
      }
    }
    HandedSoFar(wires, takes, got, now, i, stream, k, |wires|);
    ok := true;
  }

  /** The consumers before n got their share of the packet, the rest have not been asked. */
  ghost predicate HandedUpTo(wires: seq<Wire>, takes: Outcome, was: Books, now: Books,
                             i: nat, stream: nat, k: nat, n: nat)
  {
    && |was| == |now| == |wires| && n <= |wires|
    && forall t :: 0 <= t < |wires| ==>
        if t >= n then now[t] == was[t]
        else
          && now[t] == was[t] + Share(wires[t], i, stream, k)
          && (wires[t] == Wire(i, stream) ==> takes(t, |was[t]|))
  }

  lemma HandedSoFar(wires: seq<Wire>, takes: Outcome, was: Books, now: Books, i: nat, stream: nat, k: nat, n: nat)
    requires HandedUpTo(wires, takes, was, now, i, stream, k, n)
    ensures Handed(wires, takes, was, now, i, stream, k, n == |wires|)
    ensures n < |wires| ==>
      Handed(wires, takes, was, now[n := was[n] + Share(wires[n], i, stream, k)], i, stream, k, false)
  {
    hide Share;
  }

  lemma HandedInPart(wires: seq<Wire>, takes: Outcome, was: Books, now: Books, i: nat, stream: nat, k: nat)
    requires |was| == |wires|
    requires now == was || exists ok :: Handed(wires, takes, was, now, i, stream, k, ok)
    ensures Handed(wires, takes, was, now, i, stream, k, false)
  {}

  lemma ServedStep(inputs: seq<Input>, wires: seq<Wire>, takes: Outcome, was: Books, now: Books,
                   pos: seq<nat>, i: nat, ok: bool)
    requires |pos| == |inputs| && Wired(wires, |inputs|)
    requires Served(inputs, wires, takes, was, pos, true) && i < |inputs| && inputs[i].read(pos[i]).Got?
    requires Handed(wires, takes, was, now, i, inputs[i].read(pos[i]).packet.stream, pos[i], ok)
    ensures Served(inputs, wires, takes, now, pos[i := pos[i] + 1], ok)
  {
    var stream, next := inputs[i].read(pos[i]).packet.stream, pos[i := pos[i] + 1];
    forall t | 0 <= t < |wires|
      ensures inputs[wires[t].input].Route(wires[t].stream, next[wires[t].input])
           == inputs[wires[t].input].Route(wires[t].stream, pos[wires[t].input]) + Share(wires[t], i, stream, pos[i])
    {}
  }

  // ---- counting -------------------------------------------------------------------

  function Live(eof: seq<bool>): nat {
    if eof == [] then 0 else (if eof[0] then 0 else 1) + Live(eof[1..])
  }

  lemma {:induction false} LiveFalls(eof: seq<bool>, i: nat)
    requires i < |eof| && !eof[i]
    ensures Live(eof[i := true]) == Live(eof) - 1
  {
    var now := eof[i := true];
    if i == 0 {
      assert now[1..] == eof[1..];
    } else {
      assert now[1..] == eof[1..][i - 1 := true];
      LiveFalls(eof[1..], i - 1);
    }
  }

  lemma {:induction false} NoneLive(eof: seq<bool>)
    ensures Live(eof) == 0 <==> forall i :: 0 <= i < |eof| ==> eof[i]
    ensures (forall i :: 0 <= i < |eof| ==> !eof[i]) ==> Live(eof) == |eof|
  {
    if eof != [] {
      NoneLive(eof[1..]);
      assert forall i :: 0 < i < |eof| ==> eof[i] == eof[1..][i - 1];
    }
  }

  function Sum(s: seq<nat>): nat {
    if s == [] then 0 else s[0] + Sum(s[1..])
  }

  lemma {:induction false} SumFalls(was: seq<nat>, now: seq<nat>)
    requires |was| == |now| && forall i :: 0 <= i < |was| ==> now[i] <= was[i]
    ensures Sum(now) <= Sum(was)
    ensures (exists i :: 0 <= i < |was| && now[i] < was[i]) ==> Sum(now) < Sum(was)
  {
    if was != [] {
      SumFalls(was[1..], now[1..]);
      assert forall i :: 0 < i < |was| ==> was[i] == was[1..][i - 1] && now[i] == now[1..][i - 1];
    }
  }

  // ---- the loop --------------------------------------------------------------------

  class Engine {
    const job: Job
    const oracle: Oracle
    const pads: seq<Pad>
    const sinks: seq<Sink>
    var ok: bool                // rc >= 0
    var eof: seq<bool>
    var remaining: nat
    var pos: seq<nat>           // packets taken from each input
    var fed: seq<seq<nat>>      // what each decoder was sent, by answer number
    var copied: seq<seq<nat>>   // what each copy target was handed
    var subbed: seq<seq<nat>>   // and each subtitle target

    ghost predicate Objects()
      reads pads, sinks
    {
      |pads| == |job.pads| && PadsSound() && SinksSound()
    }

    ghost predicate PadsSound()
      reads pads
    {
      && (forall p, q :: 0 <= p < q < |pads| ==> pads[p] != pads[q])
      && (forall p :: 0 <= p < |pads| ==> pads[p].Valid())
    }

    ghost predicate SinksSound()
      reads sinks
    {
      && (forall j, k :: 0 <= j < k < |sinks| ==> sinks[j] != sinks[k])
      && (forall j :: 0 <= j < |sinks| ==> sinks[j].Valid())
    }

    /** Every graph output is through. */
    ghost predicate Finished()
      reads sinks
    {
      |sinks| > 0 && forall j :: 0 <= j < |sinks| ==> sinks[j].done
    }

    /** The graph itself is through with every one of input i's pads. */
    ghost predicate Released(i: nat)
      requires |pads| == |job.pads|
      reads pads
    {
      forall p :: 0 <= p < |pads| && job.pads[p].input == i ==> pads[p].closed && !pads[p].ended
    }

    /** Nothing downstream of input i can take a packet any more. */
    ghost predicate Spent(i: nat)
      requires |pads| == |job.pads|
      reads pads, sinks
    {
      (Finished() || Released(i)) && !job.FeedsLane(i)
    }

    ghost predicate Shaped()
      reads this
    {
      && job.Valid() && |eof| == |pos| == |job.inputs|
      && |fed| == |job.pads| && |copied| == |job.copies| && |subbed| == |job.subs|
      && (forall i :: 0 <= i < |pos| ==> forall k :: 0 <= k < pos[i] ==> !job.inputs[i].Stops(k))
    }

    /** Every consumer has what it should have of what was taken so far. */
    ghost predicate InStep(exact: bool)
      requires Shaped()
      reads this
    {
      && Served(job.inputs, job.pads, oracle.Decodes, fed, pos, exact)
      && Served(job.inputs, job.copies, oracle.copies, copied, pos, exact)
      && Served(job.inputs, job.subs, oracle.subs, subbed, pos, exact)
    }

    /** An input is ended by its own end, or because it is spent; and no source is closed before. */
    ghost predicate EndedRightly()
      requires Shaped() && |pads| == |job.pads|
      reads this, pads, sinks
    {
      && (forall i :: 0 <= i < |eof| && eof[i] ==> job.inputs[i].StopsFirstAt(pos[i]) || Spent(i))
      && (forall p :: 0 <= p < |pads| && pads[p].ended ==> eof[job.pads[p].input])
    }

    /** Sources were closed only for inputs that have ended. */
    twostate predicate EndsWithInputs()
      requires |pads| == |job.pads|
      reads this, pads
    {
      forall p :: 0 <= p < |pads| && pads[p].ended ==>
        old(pads[p].ended) || (job.pads[p].input < |eof| && eof[job.pads[p].input])
    }

    ghost predicate Valid()
      reads this, pads, sinks
    {
      && job.Valid() && Objects() && Shaped() && InStep(ok) && EndedRightly() && remaining == Live(eof)
      && (ok ==> InOrder())
    }

    /** Nothing went wrong so far and nothing was skipped: the graph was offered every frame of every
        packet sent to a decoder, an ended input is flushed and its graph inputs closed, and no
        graph output failed. */
    ghost predicate InOrder()
      requires Objects() && Shaped()
      reads this, pads, sinks
    {
      && PadsInOrder() && PadsUnharmed() && SinksInOrder()
      && (forall p :: 0 <= p < |pads| && eof[job.pads[p].input] ==> pads[p].closed && oracle.flush(p).Healthy())
      && (forall t :: 0 <= t < |job.subs| && eof[job.subs[t].input] ==> oracle.flushesSub(t))
    }

    /** No frame offered to an open pad was refused, and closing a source at the end of its input never
        failed. */
    ghost predicate PadsUnharmed()
      reads pads
    {
      forall p :: 0 <= p < |pads| ==> pads[p].refusals == 0 && (pads[p].ended ==> oracle.closes(p))
    }

    ghost predicate PadsInOrder()
      requires Shaped() && |pads| == |job.pads|
      reads this, pads
    {
      forall p :: 0 <= p < |pads| ==> pads[p].seen == oracle.Frames(p, |fed[p]|) + Tail(p)
    }

    ghost predicate SinksInOrder()
      requires Objects()
      reads pads, sinks
    {
      forall j :: 0 <= j < |sinks| ==> forall k :: 0 <= k < sinks[j].pos ==> sinks[j].Clean(k)
    }

    ghost function Tail(p: nat): seq<Frame>
      requires Shaped() && p < |job.pads|
      reads this
    {
      if eof[job.pads[p].input] then oracle.flush(p).Frames() else []
    }

    constructor (job: Job, oracle: Oracle, pads: seq<Pad>, sinks: seq<Sink>)
      requires job.Valid() && |pads| == |job.pads|
      requires forall p, q :: 0 <= p < q < |pads| ==> pads[p] != pads[q]
      requires forall j, k :: 0 <= j < k < |sinks| ==> sinks[j] != sinks[k]
      requires forall p <- pads :: p.Valid() && p.seen == [] && p.refusals == 0 && !p.ended
      requires forall j <- sinks :: j.Valid() && j.pos == 0
      ensures Valid() && ok && remaining == |job.inputs|
      ensures this.job == job && this.oracle == oracle && this.pads == pads && this.sinks == sinks
    {
      this.job, this.oracle, this.pads, this.sinks := job, oracle, pads, sinks;
      ok, remaining := true, |job.inputs|;
      eof, pos := seq(|job.inputs|, i => false), seq(|job.inputs|, i => 0);
      fed, copied, subbed := seq(|job.pads|, i => []), seq(|job.copies|, i => []), seq(|job.subs|, i => []);
      new;
      NothingTaken();
    }

    /** Before the first answer everything is in order. */
    lemma NothingTaken()
      requires job.Valid() && Objects() && ok && remaining == |eof| == |pos| == |job.inputs|
      requires |fed| == |job.pads| && |copied| == |job.copies| && |subbed| == |job.subs|
      requires forall i :: 0 <= i < |eof| ==> !eof[i] && pos[i] == 0
      requires forall p :: 0 <= p < |fed| ==> fed[p] == []
      requires forall t :: 0 <= t < |copied| ==> copied[t] == []
      requires forall t :: 0 <= t < |subbed| ==> subbed[t] == []
      requires forall p :: 0 <= p < |pads| ==> pads[p].seen == [] && pads[p].refusals == 0 && !pads[p].ended
      requires forall j :: 0 <= j < |sinks| ==> sinks[j].pos == 0
      ensures Valid()
    {
      hide Pad.Valid, Sink.Valid, Sink.Clean;
      NoneLive(eof);
    }

    /** Every target had all its packets among those before its input's end, which came first. */
    ghost predicate AllServed()
      requires job.Valid() && |pos| == |job.inputs|
      reads this
    {
      && LanesServed(job.copies, copied) && LanesServed(job.subs, subbed)
    }

    ghost predicate LanesServed(wires: seq<Wire>, got: Books)
      requires job.Valid() && |pos| == |job.inputs| && Wired(wires, |job.inputs|)
      reads this
    {
      && |got| == |wires|
      && forall t :: 0 <= t < |wires| ==>
          var input, stop := job.inputs[wires[t].input], pos[wires[t].input];
          input.StopsFirstAt(stop) && got[t] == input.Route(wires[t].stream, stop)
    }

    /** Every decoder was sent the packets of its stream among those read, and was flushed; the graph was
        offered every frame it made of them, and refused none while it was open. */
    ghost predicate PadsServed()
      requires Objects() && Shaped()
      reads this, pads, sinks
    {
      forall p :: 0 <= p < |pads| ==>
        && fed[p] == job.inputs[job.pads[p].input].Route(job.pads[p].stream, pos[job.pads[p].input])
        && pads[p].seen == oracle.Frames(p, |fed[p]|) + oracle.flush(p).Frames()
        && pads[p].closed && pads[p].refusals == 0 && oracle.flush(p).Healthy()
    }

    lemma EveryoneServed()
      requires Valid() && ok && remaining == 0 && |pos| == |job.inputs|
      ensures AllServed()
    {
      NoneLive(eof);
      forall w | w in job.copies + job.subs ensures job.inputs[w.input].StopsFirstAt(pos[w.input]) {
        assert job.FeedsLane(w.input) && !Spent(w.input);
      }
      assert forall t :: 0 <= t < |job.copies| ==> job.copies[t] in job.copies + job.subs;
      assert forall t :: 0 <= t < |job.subs| ==> job.subs[t] in job.copies + job.subs;
    }

    // -- termination --

    /** Each pull comes back; and each input either ends by itself or feeds nothing but a graph
        whose outputs all get done. */
    ghost predicate Bounded()
      requires job.Valid()
    {
      && (forall j :: 0 <= j < |sinks| ==> sinks[j].tap.Valid() && sinks[j].tap.Pausing())
      && (forall i :: 0 <= i < |job.inputs| ==>
            || job.inputs[i].Finite()
            || (!job.FeedsLane(i) && |sinks| > 0 && forall j :: 0 <= j < |sinks| ==> sinks[j].tap.Ending()))
    }

    ghost function InputLeft(i: nat): nat
      requires Shaped() && i < |eof|
      reads this
    {
      if eof[i] || !job.inputs[i].Finite() then 0 else job.inputs[i].AStop() - pos[i]
    }

    ghost function InputsLeft(): (s: seq<nat>)
      requires Shaped()
      reads this
    {
      seq(|eof|, i requires 0 <= i < |eof| && Shaped() reads this => InputLeft(i))
    }

    ghost function SinksLeft(): (s: seq<nat>)
      requires Objects()
      reads pads, sinks
    {
      seq(|sinks|, j requires 0 <= j < |sinks| && Objects() reads pads, sinks => sinks[j].Left())
    }

    /** How many more turns there can be. */
    ghost function Measure(): nat
      requires Shaped() && Objects()
      reads this, pads, sinks
    {
      Live(eof) + Sum(InputsLeft()) + Sum(SinksLeft())
    }

    /** Nothing libav is asked to do for this job fails. */
    ghost predicate Faultless()
    {
      && (forall i :: 0 <= i < |job.inputs| ==>
            forall k: nat :: !job.inputs[i].read(k).Fail? && !job.inputs[i].ioFailed(k))
      && (forall p: nat, m: nat :: oracle.decode(p, m).Smooth())
      && (forall p: nat :: oracle.flush(p).Smooth() && oracle.closes(p))
      && (forall t: nat, m: nat :: oracle.copies(t, m) && oracle.subs(t, m))
      && (forall t: nat :: oracle.flushesSub(t))
      && (forall j :: 0 <= j < |sinks| ==> sinks[j].tap.Valid() && forall k: nat :: sinks[j].Clean(k))
    }

    lemma FaultlessRead(i: nat, k: nat)
      requires i < |job.inputs|
      ensures Faultless() ==> !job.inputs[i].read(k).Fail? && !job.inputs[i].ioFailed(k)
    {}

    // -- the graph --

    /** Nothing in the graph ever reverts. */
    twostate predicate GraphKeeps()
      reads pads, sinks
    {
      PadsKeep() && SinksKeep()
    }

    twostate predicate PadsKeep()
      reads pads
    {
      forall p :: 0 <= p < |pads| && old(pads[p].closed) ==> pads[p].closed && pads[p].ended == old(pads[p].ended)
    }

    twostate predicate SinksKeep()
      reads sinks
    {
      forall j :: 0 <= j < |sinks| ==> sinks[j].Keeps()
    }

    /** Every output that was not through has moved on, until nothing more was ready. */
    twostate predicate SinksMoved()
      reads sinks
    {
      forall j :: 0 <= j < |sinks| && !old(sinks[j].done) ==> old(sinks[j].pos) < sinks[j].pos && sinks[j].Settled()
    }

    twostate lemma SinksLeftFalls()
      requires old(Objects()) && Objects() && GraphKeeps()
      ensures Sum(SinksLeft()) <= old(Sum(SinksLeft()))
      ensures && SinksMoved() && |sinks| > 0 && !old(Finished())
              && (forall j :: 0 <= j < |sinks| ==> sinks[j].tap.Ending())
              ==> Sum(SinksLeft()) < old(Sum(SinksLeft()))
    {
      var was, now := old(SinksLeft()), SinksLeft();
      forall j | 0 <= j < |sinks|
        ensures now[j] <= was[j]
        ensures !old(sinks[j].done) && old(sinks[j].pos) < sinks[j].pos && sinks[j].tap.Ending() ==> now[j] < was[j]
      {
        sinks[j].LeftFalls();
      }
      SumFalls(was, now);
    }

    /** And every answer it took on the way was good, and was encoded. */
    twostate predicate SinksClean()
      requires Objects()
      reads pads, sinks
    {
      forall j :: 0 <= j < |sinks| ==> forall k :: old(sinks[j].pos) <= k < sinks[j].pos ==> sinks[j].Clean(k)
    }

    /** Each decoder wired to the packet's stream decoded it, and the graph was offered the frames. */
    twostate predicate PadsFed(i: nat, stream: nat)
      requires |pads| == |job.pads| == |old(fed)|
      reads pads
    {
      forall p :: 0 <= p < |pads| ==>
        && pads[p].seen == old(pads[p].seen) + FramesOf(p, i, stream, |old(fed)[p]|)
        && pads[p].refusals == old(pads[p].refusals) && pads[p].ended == old(pads[p].ended)
    }

    /** The frames the end of input i leaves for a graph input. */
    function TailOf(p: nat, i: nat): seq<Frame>
      requires p < |job.pads|
    {
      if job.pads[p].input == i then oracle.flush(p).Frames() else []
    }

    /** The decoder of a graph input was flushed into it if it is input i's, and that was closed. */
    twostate predicate PadFlushed(p: nat, i: nat)
      requires p < |pads| == |job.pads|
      reads pads[p]
    {
      && pads[p].seen == old(pads[p].seen) + TailOf(p, i)
      && (job.pads[p].input == i ==> pads[p].closed && oracle.flush(p).Healthy())
      && pads[p].refusals == old(pads[p].refusals) && (pads[p].ended ==> old(pads[p].ended) || oracle.closes(p))
    }

    twostate predicate PadsFlushed(i: nat)
      requires |pads| == |job.pads|
      reads pads
    {
      forall p :: 0 <= p < |pads| ==> PadFlushed(p, i)
    }

    /** A graph input that was closed is left alone, and only one of input i's is closed. */
    twostate predicate PadSteady(p: nat, i: nat)
      requires p < |pads| == |job.pads|
      reads pads[p]
    {
      && (old(pads[p].closed) ==> pads[p].closed && pads[p].ended == old(pads[p].ended))
      && (pads[p].ended ==> old(pads[p].ended) || job.pads[p].input == i)
    }

    predicate SubsFlushed(i: nat) {
      forall t :: 0 <= t < |job.subs| && job.subs[t].input == i ==> oracle.flushesSub(t)
    }

    method AllDone() returns (all: bool)
      ensures all <==> forall j :: 0 <= j < |sinks| ==> sinks[j].done
    {
      for j := 0 to |sinks|
        invariant forall k :: 0 <= k < j ==> sinks[k].done
      {
        if !sinks[j].done {
          return false;
        }
      }
      all := true;
    }

    method PullOne(j: nat) returns (good: bool)
      requires Objects() && job.Valid() && Bounded() && j < |sinks| && !sinks[j].done
      modifies sinks[j]
      ensures Objects() && sinks[j].Keeps() && old(sinks[j].pos) < sinks[j].pos
      ensures good ==> sinks[j].Settled()
      ensures good <==> forall k :: old(sinks[j].pos) <= k < sinks[j].pos ==> sinks[j].Clean(k)
      ensures Faultless() ==> good
    {
      hide Pad.Valid, Sink.Valid, PadsSound;
      assert sinks[j].tap.PausesAfter(sinks[j].pos);
      ghost var halt: nat :| sinks[j].pos <= halt && sinks[j].tap.Halts(halt);
      good := sinks[j].Pull(halt);
    }

    /** pull_sinks. */
    method PullAll() returns (good: bool)
      requires Objects() && job.Valid() && Bounded()
      modifies sinks
      ensures Objects() && SinksKeep() && (good ==> SinksMoved() && SinksClean()) && (Faultless() ==> good)
    {
      hide Pad.Valid, Sink.Valid, Sink.Clean, Sink.Settled, Faultless, PadsSound;
      var all := AllDone();
      if |sinks| > 0 && all {
        return true;
      }
      for j := 0 to |sinks|
        invariant Objects() && SinksKeep()
        invariant forall k :: 0 <= k < j && !old(sinks[k].done) ==>
          old(sinks[k].pos) < sinks[k].pos && sinks[k].Settled()
        invariant forall k :: 0 <= k < j ==> forall n :: old(sinks[k].pos) <= n < sinks[k].pos ==> sinks[k].Clean(n)
        invariant forall k :: j <= k < |sinks| ==> unchanged(sinks[k])
      {
        if sinks[j].done { continue; }
        var pulled := PullOne(j);
        if !pulled {
          return false;
        }
      }
      good := true;
    }

    /** Frames of one decoder, into its graph input. */
    method PushAll(p: nat, d: Decoded) returns (good: bool)
      requires Objects() && p < |pads|
      modifies pads[p]
      ensures Objects() && (old(pads[p].closed) ==> pads[p].closed)
      ensures d.Smooth() ==> good
      ensures good <==> d.Healthy() && pads[p].refusals == old(pads[p].refusals)
      ensures good ==> pads[p].seen == old(pads[p].seen) + d.Frames()
      ensures pads[p].ended == old(pads[p].ended)
    {
      hide Pad.Valid, Sink.Valid, SinksSound;
      if !d.accepts {
        return false;
      }
      for n := 0 to |d.frames|
        invariant Objects() && (old(pads[p].closed) ==> pads[p].closed)
        invariant pads[p].refusals == old(pads[p].refusals) && pads[p].ended == old(pads[p].ended)
        invariant pads[p].seen == old(pads[p].seen) + d.Frames()[..n]
      {
        var pushed := pads[p].Push(d.frames[n].0, d.frames[n].1);
        if !pushed {
          return false;
        }
      }
      good := d.sound;
    }

    /** What a decoder gets out of the packet, and the graph with it. */
    function FramesOf(p: nat, i: nat, stream: nat, n: nat): seq<Frame>
      requires p < |job.pads|
    {
      if job.pads[p] == Wire(i, stream) then oracle.decode(p, n).Frames() else []
    }

    /** One graph input's share of a packet. */
    method FeedPad(p: nat, i: nat, stream: nat, k: nat) returns (good: bool)
      requires Objects() && p < |pads| == |fed| == |job.pads|
      modifies `fed, pads[p]
      ensures Objects() && (old(pads[p].closed) ==> pads[p].closed)
      ensures fed == old(fed)[p := old(fed)[p] + Share(job.pads[p], i, stream, k)]
      ensures Faultless() ==> good
      ensures pads[p].ended == old(pads[p].ended) && (good ==> pads[p].refusals == old(pads[p].refusals))
      ensures good && job.pads[p] == Wire(i, stream) ==> oracle.Decodes(p, |old(fed)[p]|)
      ensures good ==> pads[p].seen == old(pads[p].seen) + FramesOf(p, i, stream, |old(fed)[p]|)
    {
      hide Pad.Valid, Sink.Valid, Decoded.Frames, SinksSound;
      if job.pads[p].input != i || job.pads[p].stream != stream {
        assert fed[p] + [] == fed[p];
        return true;
      }
      fed := fed[p := fed[p] + [k]];
      good := PushAll(p, oracle.decode(p, |fed[p]| - 1));
    }

    method FeedPads(i: nat, stream: nat, k: nat) returns (good: bool)
      requires Objects() && |fed| == |pads| == |job.pads|
      modifies `fed, pads
      ensures Objects() && PadsKeep() && Handed(job.pads, oracle.Decodes, old(fed), fed, i, stream, k, good)
      ensures (good ==> PadsFed(i, stream)) && (Faultless() ==> good)
      ensures forall p :: 0 <= p < |pads| ==> pads[p].ended == old(pads[p].ended)
    {
      hide Pad.Valid, Sink.Valid, Share, FramesOf, Oracle.Decodes, Faultless, Handed, SinksSound;
      for p := 0 to |pads|
        invariant Objects() && PadsKeep() && HandedUpTo(job.pads, oracle.Decodes, old(fed), fed, i, stream, k, p)
        invariant forall q :: 0 <= q < p ==>
          pads[q].seen == old(pads[q].seen) + FramesOf(q, i, stream, |old(fed)[q]|)
        invariant forall q :: 0 <= q < |pads| ==> pads[q].ended == old(pads[q].ended)
        invariant forall q :: 0 <= q < |pads| ==> pads[q].refusals == old(pads[q].refusals)
        invariant forall q :: p <= q < |pads| ==> pads[q].seen == old(pads[q].seen)
      {
        HandedSoFar(job.pads, oracle.Decodes, old(fed), fed, i, stream, k, p);
        var sent := FeedPad(p, i, stream, k);
        if !sent {
          return false;
        }
      }
      HandedSoFar(job.pads, oracle.Decodes, old(fed), fed, i, stream, k, |pads|);
      good := true;
    }

    /** feed. */
    method Feed(i: nat, stream: nat, k: nat) returns (good: bool)
      requires Objects() && job.Valid() && Bounded() && |fed| == |pads| == |job.pads|
      modifies `fed, pads, sinks
      ensures Objects() && GraphKeeps() && Handed(job.pads, oracle.Decodes, old(fed), fed, i, stream, k, good)
      ensures (good ==> SinksMoved() && SinksClean() && PadsFed(i, stream)) && (Faultless() ==> good)
      ensures forall p :: 0 <= p < |pads| ==> pads[p].ended == old(pads[p].ended)
    {
      hide Pad.Valid, Sink.Valid, Sink.Settled, Objects, Bounded, Job.Valid, Handed, Sink.Clean, Decoded.Frames,
        Faultless, FramesOf;
      good := FeedPads(i, stream, k);
      if good {
        good := PullAll();
      }
      if !good {
        HandedInPart(job.pads, oracle.Decodes, old(fed), fed, i, stream, k);
      }
    }

    // -- one input's turn --

    /** input_is_spent: the sinks are asked first, then the input's own pads, then its lanes. */
    method InputIsSpent(i: nat) returns (spent: bool)
      requires |pads| == |job.pads|
      ensures spent <==>
        && ((|sinks| > 0 && forall j :: 0 <= j < |sinks| ==> sinks[j].done)
            || forall p :: 0 <= p < |pads| && job.pads[p].input == i ==> pads[p].closed)
        && (forall w :: w in job.copies + job.subs ==> w.input != i)
    {
      var finished := |sinks| > 0;
      if finished {
        finished := AllDone();
      }
      if !finished {
        for p := 0 to |pads|
          invariant forall q :: 0 <= q < p && job.pads[q].input == i ==> pads[q].closed
        {
          if job.pads[p].input == i && !pads[p].closed {
            return false;
          }
        }
      }
      for t := 0 to |job.copies|
        invariant forall s :: 0 <= s < t ==> job.copies[s].input != i
      {
        if job.copies[t].input == i {
          assert job.copies[t] in job.copies + job.subs;
          return false;
        }
      }
      for t := 0 to |job.subs|
        invariant forall s :: 0 <= s < t ==> job.subs[s].input != i
      {
        if job.subs[t].input == i {
          assert job.subs[t] in job.copies + job.subs;
          return false;
        }
      }
      spent := true;
    }

    /** Before an input ends only the graph closes its pads, so the scan tells what it should. */
    lemma ScanIsSpent(i: nat)
      requires |pads| == |job.pads| && Shaped() && EndedRightly() && i < |eof| && !eof[i]
      ensures Spent(i) <==>
        && ((|sinks| > 0 && forall j :: 0 <= j < |sinks| ==> sinks[j].done)
            || forall p :: 0 <= p < |pads| && job.pads[p].input == i ==> pads[p].closed)
        && (forall w :: w in job.copies + job.subs ==> w.input != i)
    {
      hide Input.StopsFirstAt;
    }

    /** What cannot take a packet now never can again. */
    twostate lemma SpentStays(i: nat)
      requires |pads| == |job.pads| && GraphKeeps() && old(Spent(i))
      ensures Spent(i)
    {}

    /** One decoder's flush, if it is input i's, and its graph input closed. */
    method FlushPad(p: nat, i: nat) returns (good: bool)
      requires Objects() && p < |pads|
      modifies pads[p]
      ensures Objects() && PadSteady(p, i) && (good ==> PadFlushed(p, i)) && (Faultless() ==> good)
    {
      hide Pad.Valid, Sink.Valid, Decoded.Frames, SinksSound;
      if job.pads[p].input != i {
        return true;
      }
      good := PushAll(p, oracle.flush(p));
      if good && !pads[p].closed {
        pads[p].Close();
        good := oracle.closes(p);
      }
    }

    /** An input that ended is counted off, its decoders are flushed and their graph inputs closed. */
    method FlushPads(i: nat) returns (good: bool)
      requires Objects() && i < |eof| && remaining > 0
      modifies `eof, `remaining, pads
      ensures Objects() && PadsKeep() && eof == old(eof)[i := true] && remaining == old(remaining) - 1
      ensures (good ==> PadsFlushed(i)) && (Faultless() ==> good) && EndsWithInputs()
    {
      hide Pad.Valid, Sink.Valid, TailOf, Faultless, SinksSound;
      eof := eof[i := true];
      remaining := remaining - 1;
      for p := 0 to |pads|
        invariant Objects() && eof == old(eof)[i := true] && remaining == old(remaining) - 1
        invariant forall q :: 0 <= q < p ==> PadFlushed(q, i)
        invariant forall q :: 0 <= q < |pads| ==> PadSteady(q, i)
        invariant forall q :: p <= q < |pads| ==> unchanged(pads[q])
      {
        var flushed := FlushPad(p, i);
        if !flushed {
          SteadyKeeps(i);
          return false;
        }
      }
      SteadyKeeps(i);
      good := true;
    }

    twostate lemma SteadyKeeps(i: nat)
      requires |pads| == |job.pads| && i < |eof| && eof[i]
      requires forall p :: 0 <= p < |pads| ==> PadSteady(p, i)
      ensures PadsKeep() && EndsWithInputs()
    {
      forall p | 0 <= p < |pads|
        ensures old(pads[p].closed) ==> pads[p].closed && pads[p].ended == old(pads[p].ended)
        ensures pads[p].ended ==> old(pads[p].ended) || job.pads[p].input == i
      {
        assert PadSteady(p, i);
      }
    }

    /** What a successful flush makes of the graph inputs. */
    twostate lemma FlushedEach(i: nat)
      requires |pads| == |job.pads| && PadsFlushed(i)
      ensures forall p :: 0 <= p < |pads| ==>
        && pads[p].seen == old(pads[p].seen) + TailOf(p, i)
        && (job.pads[p].input == i ==> pads[p].closed && oracle.flush(p).Healthy())
        && pads[p].refusals == old(pads[p].refusals) && (pads[p].ended ==> old(pads[p].ended) || oracle.closes(p))
    {
      hide TailOf;
      forall p | 0 <= p < |pads|
        ensures pads[p].seen == old(pads[p].seen) + TailOf(p, i)
        ensures job.pads[p].input == i ==> pads[p].closed && oracle.flush(p).Healthy()
        ensures pads[p].refusals == old(pads[p].refusals)
        ensures pads[p].ended ==> old(pads[p].ended) || oracle.closes(p)
      {
        assert PadFlushed(p, i);
      }
    }

    method FlushSubs(i: nat) returns (good: bool)
      ensures (good <==> SubsFlushed(i)) && (Faultless() ==> good)
    {
      for t := 0 to |job.subs|
        invariant forall s :: 0 <= s < t && job.subs[s].input == i ==> oracle.flushesSub(s)
      {
        if job.subs[t].input != i { continue; }
        if !oracle.flushesSub(t) {
          return false;
        }
      }
      good := true;
    }

    twostate lemma EndingFalls(i: nat)
      requires old(Objects()) && Objects() && GraphKeeps() && old(Shaped()) && Shaped()
      requires i < |eof| && !old(eof[i]) && eof == old(eof)[i := true] && pos == old(pos)
      ensures Measure() < old(Measure())
    {
      LiveFalls(old(eof), i);
      SinksLeftFalls();
      SumFalls(old(InputsLeft()), InputsLeft());
    }

    /** A successful flush leaves the job in order. */
    twostate lemma FlushingKeepsOrder(i: nat)
      requires old(Objects()) && Objects() && old(Shaped()) && Shaped() && old(InOrder())
      requires i < |job.inputs| && !old(eof[i]) && eof == old(eof)[i := true] && fed == old(fed)
      requires SinksClean() && PadsFlushed(i) && SubsFlushed(i) && GraphKeeps()
      ensures InOrder()
    {
      FlushedPadsInOrder(i);
      FlushedEach(i);
      hide Pad.Valid, Sink.Valid, Sink.Clean, TailOf, PadsInOrder;
    }

    twostate lemma FlushedPadsInOrder(i: nat)
      requires |pads| == |job.pads| && old(Shaped()) && Shaped() && old(PadsInOrder())
      requires i < |job.inputs| && !old(eof[i]) && eof == old(eof)[i := true] && fed == old(fed) && PadsFlushed(i)
      ensures PadsInOrder()
    {
      FlushedEach(i);
      hide Pad.Valid, Sink.Valid, Decoded.Frames;
    }

    /** An ended input stays rightly ended, and nobody's packets change. */
    twostate lemma EndingKeepsBooks()
      requires old(Objects()) && Objects() && GraphKeeps() && old(Shaped()) && old(EndedRightly()) && old(InStep(true))
      requires |eof| == |job.inputs| && pos == old(pos) && EofStays(old(eof))
      requires fed == old(fed) && copied == old(copied) && subbed == old(subbed) && EndsWithInputs()
      requires forall i :: 0 <= i < |eof| && eof[i] && !old(eof)[i] ==>
        old(job.inputs[i].StopsFirstAt(pos[i])) || old(Spent(i))
      ensures Shaped() && EndedRightly() && InStep(true) && InStep(false)
    {
      hide Pad.Valid, Sink.Valid, Input.StopsFirstAt;
      forall k | 0 <= k < |eof| && old(Spent(k)) ensures Spent(k) {
        SpentStays(k);
      }
    }

    /** The end of an input for its decoders: those of the graph, then those of the subtitle targets. */
    method FlushDecoders(i: nat) returns (good: bool)
      requires Objects() && i < |eof| && remaining > 0
      modifies `eof, `remaining, pads
      ensures Objects() && PadsKeep() && eof == old(eof)[i := true] && remaining == old(remaining) - 1
      ensures (good ==> PadsFlushed(i) && SubsFlushed(i)) && (Faultless() ==> good) && EndsWithInputs()
    {
      hide Pad.Valid, Sink.Valid, Objects, SubsFlushed, Faultless, TailOf;
      good := FlushPads(i);
      if good {
        good := FlushSubs(i);
      }
    }

    /** The end of an input, through all three lanes. */
    method Flush(i: nat) returns (good: bool)
      requires Objects() && job.Valid() && Bounded() && |pads| == |job.pads| && i < |eof| && remaining > 0
      modifies `eof, `remaining, pads, sinks
      ensures Objects() && GraphKeeps() && eof == old(eof)[i := true] && remaining == old(remaining) - 1
      ensures good ==> PadsFlushed(i) && SubsFlushed(i) && SinksClean() && SinksMoved()
      ensures (Faultless() ==> good) && EndsWithInputs()
    {
      hide Pad.Valid, Sink.Valid, Sink.Settled, Objects, Bounded, Job.Valid, Sink.Clean, SubsFlushed, Faultless, TailOf;
      good := FlushDecoders(i);
      if good {
        good := PullAll();
      }
    }

    method EndInput(i: nat)
      requires Valid() && ok && Bounded() && i < |job.inputs| == |eof| && !eof[i] && |pads| == |job.pads|
      requires job.inputs[i].StopsFirstAt(pos[i]) || Spent(i)
      modifies this`ok, this`eof, this`remaining, pads, sinks
      ensures Valid() && GraphKeeps() && eof == old(eof)[i := true] && Measure() < old(Measure())
      ensures (ok ==> SinksMoved()) && (Faultless() ==> ok)
    {
      hide Pad.Valid, Sink.Valid, Objects, Shaped, InStep, EndedRightly, Measure, Bounded, Job.Valid, Input.Valid,
        InOrder, SubsFlushed, Faultless, GraphKeeps, PadsFlushed, SinksClean, SinksMoved;
      LiveFalls(eof, i);
      ok := Flush(i);
      EndingKeepsBooks();
      if ok {
        FlushingKeepsOrder(i);
      }
      EndingFalls(i);
    }

    twostate lemma TakingFalls(i: nat)
      requires old(Objects()) && Objects() && GraphKeeps() && old(Shaped()) && Shaped()
      requires i < |job.inputs| && !old(eof[i]) && eof == old(eof) && pos == old(pos)[i := old(pos)[i] + 1]
      requires Bounded() && !old(Spent(i)) && SinksMoved()
      ensures Measure() < old(Measure())
    {
      hide Pad.Valid, Sink.Valid;
      SinksLeftFalls();
      SumFalls(old(InputsLeft()), InputsLeft());
      if job.inputs[i].Finite() {
        assert InputsLeft()[i] < old(InputsLeft()[i]);
      }
    }

    /** A successful hand-over leaves the job in order. */
    twostate lemma TakingKeepsOrder(i: nat)
      requires old(Objects()) && Objects() && old(Shaped()) && Shaped() && old(InOrder())
      requires i < |job.inputs| && !old(eof[i]) && eof == old(eof)
      requires SinksClean() && GraphKeeps() && PadsInOrder() && PadsUnharmed()
      ensures InOrder()
    {
      hide Pad.Valid, Sink.Valid, Sink.Clean, PadsInOrder;
    }

    twostate lemma PadsStayInOrder(i: nat)
      requires |pads| == |job.pads| && old(Objects()) && old(Shaped()) && Shaped() && old(InOrder())
      requires i < |job.inputs| && !old(eof[i]) && eof == old(eof) && !job.inputs[i].Stops(old(pos)[i])
      requires ok && PadsFed(i, job.StreamAt(i, old(pos)[i]))
      requires Handed(job.pads, oracle.Decodes, old(fed), fed, i, job.StreamAt(i, old(pos)[i]), old(pos)[i], ok)
      ensures PadsInOrder() && PadsUnharmed()
    {
      hide Decoded.Frames, Decoded.Healthy, Pad.Valid, Sink.Valid, SinksInOrder, Oracle.Frames;
      var stream := job.StreamAt(i, old(pos)[i]);
      forall p | 0 <= p < |pads| ensures pads[p].seen == oracle.Frames(p, |fed[p]|) + Tail(p) {
        FramesStep(p, i, stream, old(fed)[p], fed[p], old(pos)[i]);
        assert old(pads[p].seen) == oracle.Frames(p, |old(fed)[p]|) + old(Tail(p));
      }
    }

    /** One more share is one more packet's frames. */
    lemma {:induction false} FramesStep(p: nat, i: nat, stream: nat, was: seq<nat>, now: seq<nat>, k: nat)
      requires p < |job.pads| && now == was + Share(job.pads[p], i, stream, k)
      ensures oracle.Frames(p, |now|) == oracle.Frames(p, |was|) + FramesOf(p, i, stream, |was|)
      ensures now != was ==> job.pads[p].input == i
    {
      hide Decoded.Frames;
      if job.pads[p] != Wire(i, stream) {
        assert now == was;
      }
    }

    twostate lemma TakingKeepsBooks(i: nat)
      requires old(Objects()) && Objects() && GraphKeeps() && old(Shaped()) && old(EndedRightly()) && old(InStep(true))
      requires i < |job.inputs| && !old(eof[i]) && !job.inputs[i].Stops(old(pos)[i])
      requires eof == old(eof) && pos == old(pos)[i := old(pos)[i] + 1] && EndsWithInputs()
      requires Handed(job.pads, oracle.Decodes, old(fed), fed, i, job.StreamAt(i, old(pos)[i]), old(pos)[i], ok)
      requires Handed(job.copies, oracle.copies, old(copied), copied, i, job.StreamAt(i, old(pos)[i]), old(pos)[i], ok)
      requires Handed(job.subs, oracle.subs, old(subbed), subbed, i, job.StreamAt(i, old(pos)[i]), old(pos)[i], ok)
      ensures Shaped() && EndedRightly() && InStep(ok)
    {
      hide Pad.Valid, Sink.Valid, Input.StopsFirstAt, Served, Handed;
      ServedStep(job.inputs, job.pads, oracle.Decodes, old(fed), fed, old(pos), i, ok);
      ServedStep(job.inputs, job.copies, oracle.copies, old(copied), copied, old(pos), i, ok);
      ServedStep(job.inputs, job.subs, oracle.subs, old(subbed), subbed, old(pos), i, ok);
      forall k | 0 <= k < |eof| && old(Spent(k)) ensures Spent(k) {
        SpentStays(k);
      }
    }

    /** A packet goes to the graph, then to the copy targets, then to the subtitle targets. */
    method Distribute(i: nat, stream: nat, k: nat) returns (good: bool)
      requires Objects() && job.Valid() && Bounded()
      requires |fed| == |pads| == |job.pads| && |copied| == |job.copies| && |subbed| == |job.subs|
      modifies this`fed, this`copied, this`subbed, pads, sinks
      ensures Objects() && GraphKeeps() && (Faultless() ==> good)
      ensures good ==> SinksMoved() && SinksClean() && PadsFed(i, stream)
      ensures forall p :: 0 <= p < |pads| ==> pads[p].ended == old(pads[p].ended)
      ensures Handed(job.pads, oracle.Decodes, old(fed), fed, i, stream, k, good)
      ensures Handed(job.copies, oracle.copies, old(copied), copied, i, stream, k, good)
      ensures Handed(job.subs, oracle.subs, old(subbed), subbed, i, stream, k, good)
    {
      hide Pad.Valid, Sink.Valid, Objects, Bounded, Job.Valid, Handed, GraphKeeps, SinksMoved, SinksClean, PadsFed;
      good := Feed(i, stream, k);
      if good {
        good, copied := HandOut(job.copies, copied, oracle.copies, i, stream, k);
      }
      if good {
        good, subbed := HandOut(job.subs, subbed, oracle.subs, i, stream, k);
      }
      if !good {
        HandedInPart(job.pads, oracle.Decodes, old(fed), fed, i, stream, k);
        HandedInPart(job.copies, oracle.copies, old(copied), copied, i, stream, k);
        HandedInPart(job.subs, oracle.subs, old(subbed), subbed, i, stream, k);
      }
    }

    method TakePacket(i: nat)
      requires Valid() && ok && Bounded() && i < |job.inputs| == |eof| && |pos| == |job.inputs| && !eof[i]
      requires |fed| == |pads| == |job.pads| && |copied| == |job.copies| && |subbed| == |job.subs|
      requires !job.inputs[i].Stops(pos[i]) && !Spent(i)
      modifies this`ok, this`pos, this`fed, this`copied, this`subbed, pads, sinks
      ensures Valid() && GraphKeeps() && eof == old(eof) && (ok ==> Measure() < old(Measure()))
      ensures (ok ==> SinksMoved()) && (Faultless() ==> ok)
    {
      hide Pad.Valid, Sink.Valid, Objects, Shaped, InStep, EndedRightly, Measure, Bounded, Job.Valid, Input.Valid,
        Spent, Faultless, Handed, InOrder, GraphKeeps, SinksMoved, SinksClean, PadsFed;
      var k := pos[i];
      var stream := job.StreamAt(i, k);
      ok := Distribute(i, stream, k);
      pos := pos[i := k + 1];
      TakingKeepsBooks(i);
      if ok {
        TakingFalls(i);
        PadsStayInOrder(i);
        TakingKeepsOrder(i);
      }
    }

    /** Input i's turn in the round. */
    method Turn(i: nat)
      requires Valid() && ok && Bounded() && i < |job.inputs| == |eof| && !eof[i] && |pads| == |job.pads|
      modifies this, pads, sinks
      ensures Valid() && GraphKeeps()
      ensures eof == old(eof) || eof == old(eof)[i := true]
      ensures (ok ==> Measure() < old(Measure()) && SinksMoved()) && (Faultless() ==> ok)
    {
      hide Pad.Valid, Sink.Valid, Objects, Measure, Bounded, InStep, EndedRightly, Live, InOrder, Spent, Faultless,
        Sink.Settled;
      ScanIsSpent(i);
      var spent := InputIsSpent(i);
      TakeTurn(i, spent);
    }

    /** The turn, once it is known whether anything can still take a packet of the input. */
    method TakeTurn(i: nat, spent: bool)
      requires Valid() && ok && Bounded() && i < |job.inputs| == |eof| && !eof[i] && |pads| == |job.pads|
      requires spent <==> Spent(i)
      modifies this, pads, sinks
      ensures Valid() && GraphKeeps()
      ensures eof == old(eof) || eof == old(eof)[i := true]
      ensures (ok ==> Measure() < old(Measure()) && SinksMoved()) && (Faultless() ==> ok)
    {
      hide Pad.Valid, Sink.Valid, Objects, Measure, Bounded, InStep, EndedRightly, Live, InOrder, Spent, Faultless,
        GraphKeeps, SinksMoved;
      FaultlessRead(i, pos[i]);
      var input, k := job.inputs[i], pos[i];
      if !spent {
        if input.read(k).Fail? || (input.Stops(k) && input.ioFailed(k)) {
          EndWithError();
          return;
        }
        if !input.Stops(k) {
          TakePacket(i);
          return;
        }
      }
      EndInput(i);
    }

    /** A read that failed ends the job. */
    method EndWithError()
      requires Valid()
      modifies `ok
      ensures Valid() && !ok && GraphKeeps()
    {
      hide Pad.Valid, Sink.Valid, Objects;
      ok := false;
    }

    /** One round over the inputs. */
    method Round()
      requires Valid() && ok && Bounded() && remaining > 0 && |eof| == |job.inputs| && |pads| == |job.pads|
      modifies this, pads, sinks
      ensures Valid() && GraphKeeps() && EofStays(old(eof)) && (Faultless() ==> ok)
      ensures ok ==> Measure() < old(Measure())
    {
      hide Pad.Valid, Sink.Valid, Objects, Measure, Bounded, InStep, EndedRightly, Live, InOrder;
      NoneLive(eof);
      var i := 0;
      while i < |job.inputs| && ok
        invariant Valid() && GraphKeeps() && EofStays(old(eof)) && i <= |job.inputs| && (Faultless() ==> ok)
        invariant ok ==> Measure() < old(Measure()) || (Measure() == old(Measure()) && eof == old(eof))
        invariant ok && Measure() == old(Measure()) ==> forall k :: 0 <= k < i ==> old(eof)[k]
        decreases |job.inputs| - i
      {
        if !eof[i] {
          Turn(i);
        }
        i := i + 1;
      }
    }

    ghost predicate EofStays(was: seq<bool>)
      reads this
    {
      |eof| == |was| && forall i :: 0 <= i < |was| && was[i] ==> eof[i]
    }

    /** Every graph output was pulled until it had nothing ready, or is through. */
    ghost predicate AllSettled()
      reads sinks
    {
      forall j :: 0 <= j < |sinks| ==> sinks[j].Settled()
    }

    /** The last pull once every input has ended. */
    method Drain()
      requires Valid() && ok && Bounded()
      modifies `ok, sinks
      ensures Valid() && GraphKeeps() && (Faultless() ==> ok)
      ensures ok ==> SinksMoved() && AllSettled()
    {
      hide Pad.Valid, Sink.Valid, Objects, InStep, EndedRightly, Live, Bounded, Faultless, InOrder, AllSettled,
        Sink.Settled, Sink.Clean;
      ok := PullAll();
      EndingKeepsBooks();
      if ok {
        PullingKeepsOrder();
        MovedAreSettled();
      }
    }

    /** Pulling the sinks alone touches no graph input. */
    twostate lemma PullingKeepsOrder()
      requires old(Objects()) && Objects() && old(Shaped()) && Shaped() && old(InOrder())
      requires eof == old(eof) && fed == old(fed) && SinksClean() && forall p :: 0 <= p < |pads| ==> unchanged(pads[p])
      ensures InOrder()
    {
      hide Pad.Valid, Sink.Valid, Sink.Clean;
    }

    /** A sink that was through before was settled then. */
    twostate lemma MovedAreSettled()
      requires old(Objects()) && Objects() && SinksMoved() && GraphKeeps()
      ensures AllSettled()
    {
      hide Pad.Valid;
    }

    /** What the whole job came to, once every input has ended. */
    method Finish()
      requires Valid() && ok && Bounded() && remaining == 0
      modifies `ok, sinks
      ensures Valid() && GraphKeeps() && (Faultless() ==> ok)
      ensures ok ==> AllServed() && PadsServed() && AllSettled() && InputsEnded()
    {
      hide Pad.Valid, Sink.Valid, Objects, Measure, Bounded, InStep, EndedRightly, Live, InOrder, PadsServed, AllServed,
        AllSettled, InputsEnded, Faultless;
      EveryoneServed();
      Drain();
      EveryInputEnded();
      if ok { EveryPadServed(); }
    }

    /** An input was read to its own end, or everything it fed was through: every graph output, or by
        the graph's own word every pad of this input. */
    ghost predicate InputsEnded()
      requires |pads| == |job.pads| && job.Valid()
      reads this, pads, sinks
    {
      |pos| == |job.inputs| && forall i :: 0 <= i < |pos| ==>
        || job.inputs[i].StopsFirstAt(pos[i])
        || (&& (forall w :: w in job.copies + job.subs ==> w.input != i)
            && ((|sinks| > 0 && forall j :: 0 <= j < |sinks| ==> sinks[j].done)
                || forall p :: 0 <= p < |pads| && job.pads[p].input == i ==> pads[p].closed && !pads[p].ended))
    }

    /** The whole loop and the last drain. It ends; and unless something failed, every input was
        read to its own end or was spent, each copy and subtitle target having been handed exactly
        its stream's packets up to there, and the graph was drained. */
    method Run()
      requires Valid() && ok && Bounded() && |pads| == |job.pads|
      modifies this, pads, sinks
      ensures Valid() && GraphKeeps()
      ensures ok ==> remaining == 0 && AllServed() && PadsServed() && AllSettled() && InOrder()
      // an input was read to its own end, or everything it fed was through: every graph output, or by
      // the graph's own word every pad of this input
      ensures ok ==> |pos| == |job.inputs| && forall i :: 0 <= i < |pos| ==>
        || job.inputs[i].StopsFirstAt(pos[i])
        || (&& (forall w :: w in job.copies + job.subs ==> w.input != i)
            && ((|sinks| > 0 && forall j :: 0 <= j < |sinks| ==> sinks[j].done)
                || forall p :: 0 <= p < |pads| && job.pads[p].input == i ==> pads[p].closed && !pads[p].ended))
      ensures Faultless() ==> ok
    {
      hide Pad.Valid, Sink.Valid, Objects, Measure, Bounded, InStep, EndedRightly, Live, InOrder, PadsServed, AllServed,
        AllSettled, Spent, Input.StopsFirstAt, Faultless;
      while remaining > 0 && ok
        invariant Valid() && GraphKeeps() && (Faultless() ==> ok)
        decreases if ok then Measure() + 1 else 0
      {
        Round();
      }
      if ok {
        Finish();
      }
    }

    lemma EveryPadServed()
      requires Valid() && ok && remaining == 0
      ensures PadsServed()
    {
      hide Pad.Valid, Sink.Valid, Decoded.Frames;
      NoneLive(eof);
    }

    lemma EveryInputEnded()
      requires Valid() && remaining == 0
      ensures InputsEnded()
    {
      hide Pad.Valid, Sink.Valid, Input.StopsFirstAt, InStep;
      NoneLive(eof);
    }
  }
}
