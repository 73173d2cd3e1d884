/** The jittered fixture: one audio packet per cluster, placed at cycled gaps that do not match the
    samples it holds. */
module JitteredAudio {
  import opened Basics
  import opened Wire
  import opened Ebml
  import opened ChapterAtoms
  import Matroska

  const AUDIO: Id := [0xE1]
  const SAMPLING_FREQUENCY: Id := [0xB5]
  const CHANNELS: Id := [0x9F]
  const BIT_DEPTH: Id := [0x62, 0x64]

  const SPAN_MAX: int := MAX_SECONDS * 1000

  /** What is asked for: channels of 16-bit samples, so many to a packet, and the gaps in ms. */
  datatype Shape = Shape(rate: int, channels: int, samples: int, packets: int, gaps: seq<int>) {
    predicate Valid() {
      && rate > 0 && samples > 0 && packets > 0 && 1 <= channels <= 2
      && Advancing()
    }

    predicate Advancing() {
      gaps != [] && forall i :: 0 <= i < |gaps| ==> gaps[i] > 0
    }

    /** How long after packet i the next one starts, in ms. */
    function Gap(i: nat): (g: nat)
      requires Advancing()
      ensures g > 0
    {
      gaps[i % |gaps|]
    }

    /** Where packet i starts, in ms. */
    function Time(i: nat): (t: nat)
      requires Advancing()
    {
      if i == 0 then 0 else Time(i - 1) + Gap(i - 1)
    }

    predicate Accepted() {
      Valid() && Time(packets - 1) <= SPAN_MAX
    }

    // Not a limit of the writer's own: what fits in a file at all.
    predicate Fits()
      requires Valid()
    {
      packets * (samples * 4 + 64) < TWO56 / 2
    }
  }

  /** Samples from..to, each repeated for every channel; wave(n) is sample n as 16 bits. */
  function Pcm(wave: nat -> nat, channels: nat, from: nat, count: nat): (bs: seq<byte>)
    ensures |bs| == 2 * channels * count
  {
    if count == 0 then [] else Pcm(wave, channels, from, count - 1) + Repeat(Put(2, wave(from + count - 1)), channels)
  }

  function Repeat(bs: seq<byte>, n: nat): (r: seq<byte>)
    ensures |r| == |bs| * n
  {
    if n == 0 then [] else Repeat(bs, n - 1) + bs
  }

  function Block(data: seq<byte>): seq<byte> {
    [0x81, 0, 0, 0x80] + data
  }

  function ClusterPayload(ms: nat, data: seq<byte>): (bs: seq<byte>)
    requires ms < TWO64 && |data| < TWO56 / 2
    ensures |bs| <= |data| + 48
  {
    UintEl(Matroska.TIMECODE, ms) + El(Matroska.SIMPLE_BLOCK, Block(data))
  }

  // ---- what is read ----------------------------------------------------------------

  // A packet as a reader finds it: its cluster's timecode and its samples.
  datatype Packet = Packet(ms: nat, data: seq<byte>)

  /** A block of track one, section 10 of RFC 9559: the track, two bytes of time after the cluster's, the
      flags with the keyframe bit, and the samples. */
  function ReadPacket(cluster: seq<byte>): Option<Packet> {
    var (ms, block) := (ChildUint(cluster, Matroska.TIMECODE), ChildPayload(cluster, Matroska.SIMPLE_BLOCK));
    if ms.None? || block.None? || |block.value| < 4 then None
    else
      var b := block.value;
      var (high: nat, low: nat) := (b[1], b[2]);
      if b[0] != 0x81 || high >= 0x80 || b[3] < 0x80 then None else Some(Packet(ms.value + high * 256 + low, b[4..]))
  }

  /** The packets of the clusters among a segment's children. */
  function ReadPackets(es: seq<Elem>): Option<seq<Packet>> {
    if es == [] then Some([])
    else
      var (init, last) := (ReadPackets(es[..|es| - 1]), es[|es| - 1]);
      if last.id != Matroska.CLUSTER || init.None? then init
      else if ReadPacket(last.payload).None? then None
      else Some(init.value + [ReadPacket(last.payload).value])
  }

  // What a reader finds about the track: the rate's bits, the channels and the bits of a sample.
  datatype Track = Track(rate: seq<byte>, channels: nat, bits: nat)

  function ReadTrack(data: seq<byte>): Option<Track> {
    var tracks := ChildPayload(data, Matroska.TRACKS);
    if tracks.None? then None
    else
      var entry := ChildPayload(tracks.value, Matroska.TRACK_ENTRY);
      if entry.None? then None
      else
        var audio := ChildPayload(entry.value, AUDIO);
        if audio.None? then None
        else
          var (rate, channels, bits) :=
            (ChildPayload(audio.value, SAMPLING_FREQUENCY),
             ChildUint(audio.value, CHANNELS), ChildUint(audio.value, BIT_DEPTH));
          if rate.None? || channels.None? || bits.None? then None
          else Some(Track(rate.value, channels.value, bits.value))
  }

  /** The bits of the declared duration. */
  function ReadDuration(data: seq<byte>): Option<seq<byte>> {
    var info := ChildPayload(data, Matroska.INFO);
    if info.None? then None else ChildPayload(info.value, Matroska.DURATION)
  }

  lemma PacketReads(ms: nat, data: seq<byte>)
    requires ms < TWO64 && |data| < TWO56 / 2
    ensures var payload := ClusterPayload(ms, data);
      Children(El(Matroska.CLUSTER, payload)) == Some([Elem(Matroska.CLUSTER, payload)])
    ensures ReadPacket(ClusterPayload(ms, data)) == Some(Packet(ms, data))
  {
    hide Children, El, Find, BeValue, UintPayload;
    PayloadFits(ms);
    var (a, b) := (Elem(Matroska.TIMECODE, UintPayload(ms)), Elem(Matroska.SIMPLE_BLOCK, Block(data)));
    assert a.id[0] != b.id[0];
    OnlyChild(Matroska.CLUSTER, ClusterPayload(ms, data));
    OnlyChild(b.id, b.payload);
    ChildrenOfEl(a.id, a.payload, El(b.id, b.payload));
    FindSecond(a, b);
  }

  lemma ReadPacketsSnoc(es: seq<Elem>, e: Elem)
    requires e.id == Matroska.CLUSTER && ReadPackets(es).Some? && ReadPacket(e.payload).Some?
    ensures ReadPackets(es + [e]) == Some(ReadPackets(es).value + [ReadPacket(e.payload).value])
  {
    assert (es + [e])[..|es|] == es;
    hide ReadPacket;
  }

  lemma NoPackets()
    ensures Children([]) == Some([]) && ReadPackets([]) == Some([])
  {}

  /** These bytes hold exactly these packets. */
  ghost predicate Holds(clusters: seq<byte>, packets: seq<Packet>) {
    Children(clusters).Some? && ReadPackets(Children(clusters).value) == Some(packets)
  }

  lemma OneMore(clusters: seq<byte>, packets: seq<Packet>, ms: nat, data: seq<byte>)
    requires Holds(clusters, packets) && ms < TWO64 && |data| < TWO56 / 2
    ensures Holds(clusters + El(Matroska.CLUSTER, ClusterPayload(ms, data)), packets + [Packet(ms, data)])
  {
    hide Children, El, ReadPacket, ReadPackets, ClusterPayload;
    PacketReads(ms, data);
    ChildrenConcat(clusters, El(Matroska.CLUSTER, ClusterPayload(ms, data)));
    ReadPacketsSnoc(Children(clusters).value, Elem(Matroska.CLUSTER, ClusterPayload(ms, data)));
  }

  // ---- the writer --------------------------------------------------------------------

  /** The packets asked for: each at its time, the samples running on from one to the next. */
  function Asked(s: Shape, wave: nat -> nat, n: nat): (ps: seq<Packet>)
    requires s.Valid()
    ensures |ps| == n
  {
    if n == 0 then []
    else Asked(s, wave, n - 1) + [Packet(s.Time(n - 1), Pcm(wave, s.channels, (n - 1) * s.samples, s.samples))]
  }

  lemma {:induction false} RepeatAt(bs: seq<byte>, n: nat, k: nat)
    requires k < n
    ensures |bs| * k + |bs| <= |Repeat(bs, n)| && Repeat(bs, n)[|bs| * k..|bs| * k + |bs|] == bs
  {
    NextFirst(k, |bs|);
    if k < n - 1 {
      RepeatAt(bs, n - 1, k);
    }
  }

  /** Sample k of a packet stands k sample frames into it, once for every channel, low byte first. */
  lemma {:induction false} SampleAt(wave: nat -> nat, channels: nat, from: nat, count: nat, k: nat, c: nat)
    requires k < count && c < channels
    ensures var (bs, at) := (Pcm(wave, channels, from, count), 2 * channels * k + 2 * c);
      at + 2 <= |bs| && bs[at] == wave(from + k) % 256 && bs[at + 1] == wave(from + k) / 256 % 256
  {
    hide Repeat;
    var here := Put(2, wave(from + count - 1));
    NextFirst(count - 1, 2 * channels);
    if k < count - 1 {
      SampleAt(wave, channels, from, count - 1, k, c);
    } else {
      RepeatAt(here, channels, c);
      assert here[1..] == Put(1, wave(from + count - 1) / 256);
      assert Repeat(here, channels)[2 * c] == here[0] && Repeat(here, channels)[2 * c + 1] == here[1];
    }
  }

  /** Packet i starts its gap after packet i - 1, and holds the samples that follow on from it. */
  lemma {:induction false} AskedAt(s: Shape, wave: nat -> nat, n: nat, i: nat)
    requires s.Valid() && i < n
    ensures Asked(s, wave, n)[i] == Packet(s.Time(i), Pcm(wave, s.channels, i * s.samples, s.samples))
    ensures Asked(s, wave, n)[i].ms == if i == 0 then 0
      else Asked(s, wave, n)[i - 1].ms + s.gaps[(i - 1) % |s.gaps|]
  {
    hide Pcm;
    if i < n - 1 {
      AskedAt(s, wave, n - 1, i);
    } else if i > 0 {
      AskedAt(s, wave, n - 1, i - 1);
    }
  }

  method PacketData(s: Shape, wave: nat -> nat, first: nat) returns (data: seq<byte>, sample: nat)
    requires s.Valid()
    ensures data == Pcm(wave, s.channels, first, s.samples) && sample == first + s.samples
  {
    data, sample := [], first;
    for k := 0 to s.samples
      invariant sample == first + k && data == Pcm(wave, s.channels, first, k)
    {
      var v := Put(2, wave(sample));
      ghost var before := data;
      for c := 0 to s.channels
        invariant data == before + Repeat(v, c)
      {
        data := data + v;
      }
      sample := sample + 1;
    }
  }

  /** The span loop: the gaps between the packets, the last one's excluded. */
  method Span(s: Shape) returns (span: nat)
    requires s.Valid()
    ensures span == s.Time(s.packets - 1)
  {
    span := 0;
    for i := 0 to s.packets - 1
      invariant span == s.Time(i)
    {
      span := span + s.Gap(i);
    }
  }

  /** A whole packet's length, in ms. */
  function PacketMs(s: Shape): real
    requires s.Valid()
  {
    s.samples as real / s.rate as real * 1000.0
  }

  /** A fixture's segment: its packets, its track and its duration are those asked for. */
  ghost predicate IsFixture(data: seq<byte>, s: Shape, wave: nat -> nat, floatBits: real -> seq<byte>)
    requires s.Valid()
  {
    && Holds(data, Asked(s, wave, s.packets))
    && ReadTrack(data) == Some(Track(floatBits(s.rate as real), s.channels, 16))
    // it ends where the last packet does
    && ReadDuration(data) == Some(floatBits(s.Time(s.packets - 1) as real + PacketMs(s)))
  }

  /** None refuses the arguments; otherwise the file reads back as what was asked for. floatBits is the
      eight-byte encoding of a float. */
  method MatroskaJitteredAudio(s: Shape, wave: nat -> nat, floatBits: real -> seq<byte>)
    returns (file: Option<seq<byte>>)
    requires (s.Valid() ==> s.Fits()) && forall x :: |floatBits(x)| == 8
    ensures file.Some? <==> s.Accepted()
    ensures file.Some? ==>
      var data := ChildPayload(file.value, Matroska.SEGMENT);
      data.Some? && IsFixture(data.value, s, wave, floatBits)
  {
    hide Holds, Asked, ReadTrack, ReadDuration, ChildPayload, El, Children;
    var usable := CheckShape(s);
    if !usable {
      return None;
    }
    var span := Span(s);
    if span > SPAN_MAX {
      return None;
    }
    var header, payload := Matroska.Header();
    var info := Info(span as real + PacketMs(s), floatBits);
    var tracks := Tracks(s.rate as real, s.channels, floatBits);
    var clusters := Clusters(s, wave);
    var data := El(Matroska.INFO, info) + (El(Matroska.TRACKS, tracks) + clusters);
    SegmentParts(info, tracks, clusters, Asked(s, wave, s.packets));
    SegmentSays(info, tracks, data);
    Matroska.SegmentReads(payload, data);
    file := Some(header + El(Matroska.SEGMENT, data));
  }

  method Info(ms: real, floatBits: real -> seq<byte>) returns (info: seq<byte>)
    requires forall x :: |floatBits(x)| == 8
    ensures |info| < 1024 && ChildPayload(info, Matroska.DURATION) == Some(floatBits(ms))
  {
    hide Children, El, Find, UintPayload;
    var app: seq<byte> := [0x66, 0x66, 0x6D, 0x70, 0x65, 0x67, 0x2D, 0x77, 0x61, 0x73, 0x69, 0x2F, 0x69, 0x6E, 0x74,
      0x65, 0x72, 0x6E, 0x61, 0x6C, 0x2F, 0x66, 0x69, 0x78, 0x74, 0x75, 0x72, 0x65];
    PayloadFits(1_000_000);
    var scale := Elem(Matroska.TIME_SCALE, UintPayload(1_000_000));
    var duration := Elem(Matroska.DURATION, floatBits(ms));
    var (muxing, writing) := (Elem(Matroska.MUXING_APP, app), Elem(Matroska.WRITING_APP, app));
    info := UintEl(Matroska.TIME_SCALE, 1_000_000)
      + (El(Matroska.DURATION, floatBits(ms)) + (El(Matroska.MUXING_APP, app) + El(Matroska.WRITING_APP, app)));
    assert scale.id[0] != duration.id[0] && scale.id[0] != muxing.id[0] && scale.id[0] != writing.id[0];
    assert duration.id[0] != muxing.id[0] && duration.id[0] != writing.id[0] && muxing.id[0] != writing.id[0];
    FourChildren(scale, duration, muxing, writing);
    assert duration in [scale, duration, muxing, writing];
  }

  method Tracks(rate: real, channels: nat, floatBits: real -> seq<byte>) returns (tracks: seq<byte>)
    requires (forall x :: |floatBits(x)| == 8) && 1 <= channels <= 2
    ensures |tracks| < 1024 && TracksSay(tracks, Track(floatBits(rate), channels, 16))
  {
    hide Children, El, UintEl, Find, AudioSays, Described;
    var codec: seq<byte> := [0x41, 0x5F, 0x50, 0x43, 0x4D, 0x2F, 0x49, 0x4E, 0x54, 0x2F, 0x4C, 0x49, 0x54];
    var audio := El(SAMPLING_FREQUENCY, floatBits(rate)) + (UintEl(CHANNELS, channels) + UintEl(BIT_DEPTH, 16));
    AudioReads(floatBits(rate), channels);
    var entry := UintEl(Matroska.TRACK_NUMBER, 1) + Described(codec, audio);
    EntryReads(codec, audio);
    OnlyChild(Matroska.TRACK_ENTRY, entry);
    FindAlone(Elem(Matroska.TRACK_ENTRY, entry));
    tracks := El(Matroska.TRACK_ENTRY, entry);
  }

  ghost predicate AudioSays(audio: seq<byte>, t: Track) {
    && ChildPayload(audio, SAMPLING_FREQUENCY) == Some(t.rate)
    && ChildUint(audio, CHANNELS) == Some(t.channels) && ChildUint(audio, BIT_DEPTH) == Some(t.bits)
  }

  ghost predicate TracksSay(tracks: seq<byte>, t: Track) {
    var entry := ChildPayload(tracks, Matroska.TRACK_ENTRY);
    entry.Some? && var audio := ChildPayload(entry.value, AUDIO); audio.Some? && AudioSays(audio.value, t)
  }

  lemma AudioReads(rate: seq<byte>, channels: nat)
    requires |rate| == 8 && 1 <= channels <= 2
    ensures AudioSays(El(SAMPLING_FREQUENCY, rate) + (UintEl(CHANNELS, channels) + UintEl(BIT_DEPTH, 16)),
                      Track(rate, channels, 16))
  {
    hide Children, El, Find, UintPayload, BeValue;
    PayloadFits(channels);
    PayloadFits(16);
    var a := Elem(SAMPLING_FREQUENCY, rate);
    var (b, c) := (Elem(CHANNELS, UintPayload(channels)), Elem(BIT_DEPTH, UintPayload(16)));
    OnlyChild(c.id, c.payload);
    ChildrenOfEl(b.id, b.payload, El(c.id, c.payload));
    ChildrenOfEl(a.id, a.payload, El(b.id, b.payload) + El(c.id, c.payload));
    assert a.id[0] != b.id[0] && a.id[0] != c.id[0] && b.id[0] != c.id[0];
    FindThree(a, b, c);
  }

  lemma FindThree(a: Elem, b: Elem, c: Elem)
    requires a.id != b.id && a.id != c.id && b.id != c.id
    ensures var es := [a] + ([b] + [c]);
      && Find(es, a.id) == Some(a.payload) && Find(es, b.id) == Some(b.payload) && Find(es, c.id) == Some(c.payload)
  {
    var es := [a] + ([b] + [c]);
    assert es[1..] == [b, c] && [b, c][1..] == [c];
    assert Find([b, c], c.id) == Some(c.payload);
  }

  /** The track entry after its number. */
  function Described(codec: seq<byte>, audio: seq<byte>): (bs: seq<byte>)
    requires |codec| < 64 && |audio| < 256
    ensures |bs| < 512
  {
    UintEl(Matroska.TRACK_UID, 1)
    + (UintEl(Matroska.TRACK_TYPE, 2) + (El(Matroska.CODEC_ID, codec) + El(AUDIO, audio)))
  }

  lemma EntryReads(codec: seq<byte>, audio: seq<byte>)
    requires |codec| < 64 && |audio| < 256
    ensures ChildPayload(UintEl(Matroska.TRACK_NUMBER, 1) + Described(codec, audio), AUDIO) == Some(audio)
  {
    hide Children, El, Find, UintPayload;
    PayloadFits(1);
    PayloadFits(2);
    var (uid, kind) := (Elem(Matroska.TRACK_UID, UintPayload(1)), Elem(Matroska.TRACK_TYPE, UintPayload(2)));
    var (code, last) := (Elem(Matroska.CODEC_ID, codec), Elem(AUDIO, audio));
    assert uid.id[0] != kind.id[0] && uid.id[0] != code.id[0] && uid.id[0] != last.id[0];
    assert kind.id[0] != code.id[0] && kind.id[0] != last.id[0] && code.id[0] != last.id[0];
    FourChildren(uid, kind, code, last);
    assert last in [uid, kind, code, last];
    var rest := Described(codec, audio);
    ChildrenOfEl(Matroska.TRACK_NUMBER, UintPayload(1), rest);
    assert Matroska.TRACK_NUMBER[0] != AUDIO[0];
    FindBehind(Elem(Matroska.TRACK_NUMBER, UintPayload(1)), Children(rest).value, AUDIO);
  }

  lemma FindBehind(e: Elem, es: seq<Elem>, id: Id)
    requires e.id != id
    ensures Find([e] + es, id) == Find(es, id)
  {
    assert ([e] + es)[1..] == es;
  }

  lemma {:induction false} ReadPacketsSkips(e: Elem, es: seq<Elem>)
    requires e.id != Matroska.CLUSTER
    ensures ReadPackets([e] + es) == ReadPackets(es)
  {
    hide ReadPacket;
    if es == [] {
      assert ([e] + es)[..0] == [];
    } else {
      ReadPacketsSkips(e, es[..|es| - 1]);
      assert ([e] + es)[..|es|] == [e] + es[..|es| - 1];
    }
  }

  /** Info and Tracks in front of the clusters are found there, and hide no packet. */
  lemma SegmentParts(info: seq<byte>, tracks: seq<byte>, clusters: seq<byte>, packets: seq<Packet>)
    requires |info| < 1024 && |tracks| < 1024 && Holds(clusters, packets)
    ensures var data := El(Matroska.INFO, info) + (El(Matroska.TRACKS, tracks) + clusters);
      && Holds(data, packets)
      && ChildPayload(data, Matroska.INFO) == Some(info) && ChildPayload(data, Matroska.TRACKS) == Some(tracks)
  {
    hide Children, El, ReadPackets, Find;
    var (a, b) := (Elem(Matroska.INFO, info), Elem(Matroska.TRACKS, tracks));
    assert a.id[0] != b.id[0] && a.id[0] != Matroska.CLUSTER[0] && b.id[0] != Matroska.CLUSTER[0];
    ChildrenOfEl(b.id, tracks, clusters);
    ChildrenOfEl(a.id, info, El(b.id, tracks) + clusters);
    var es := Children(clusters).value;
    ReadPacketsSkips(b, es);
    ReadPacketsSkips(a, [b] + es);
    FindFront(a, [b] + es);
    FindFront(b, es);
    FindBehind(a, [b] + es, b.id);
  }

  lemma FindFront(e: Elem, es: seq<Elem>)
    ensures Find([e] + es, e.id) == Some(e.payload)
  {}

  lemma SegmentSays(info: seq<byte>, tracks: seq<byte>, data: seq<byte>)
    requires ChildPayload(data, Matroska.INFO) == Some(info) && ChildPayload(data, Matroska.TRACKS) == Some(tracks)
    ensures ReadDuration(data) == ChildPayload(info, Matroska.DURATION)
    ensures forall t: Track :: TracksSay(tracks, t) ==> ReadTrack(data) == Some(t)
  {
    hide ChildPayload;
  }

  /** The cluster loop. */
  method Clusters(s: Shape, wave: nat -> nat) returns (clusters: seq<byte>)
    requires s.Accepted() && s.Fits()
    ensures Holds(clusters, Asked(s, wave, s.packets)) && |clusters| < TWO56 / 2
  {
    hide Holds, El, ClusterPayload, Pcm, Shape.Fits, Shape.Gap;
    clusters := [];
    var at: nat, sample: nat := 0, 0;
    NoneHeld();
    DataFits(s);
    var most := s.samples * 4 + 64;
    for i := 0 to s.packets
      invariant at == s.Time(i) && sample == i * s.samples && Holds(clusters, Asked(s, wave, i))
      invariant |clusters| <= i * most
    {
      TimesRise(s, i, s.packets - 1);
      NextFirst(i, s.samples);
      NextFirst(i, most);
      var data;
      data, sample := PacketData(s, wave, sample);
      OneMore(clusters, Asked(s, wave, i), at, data);
      clusters := clusters + El(Matroska.CLUSTER, ClusterPayload(at, data));
      at := at + s.Gap(i);
    }
  }

  lemma NextFirst(i: nat, samples: nat)
    ensures (i + 1) * samples == i * samples + samples
  {}

  lemma NoneHeld()
    ensures Holds([], [])
  {
    NoPackets();
  }

  lemma DataFits(s: Shape)
    requires s.Valid() && s.Fits()
    ensures 2 * s.channels * s.samples <= 4 * s.samples < TWO56 / 2 && s.packets * (s.samples * 4 + 64) < TWO56 / 2
  {
    AtLeastOnce(s.packets, s.samples * 4 + 64);
    if s.channels == 1 {
      assert 2 * s.channels * s.samples == 2 * s.samples;
    } else {
      assert 2 * s.channels * s.samples == 4 * s.samples;
    }
  }

  lemma AtLeastOnce(n: nat, x: nat)
    requires n > 0
    ensures n * x >= x
  {}

  method CheckShape(s: Shape) returns (ok: bool)
    ensures ok <==> s.Valid()
  {
    if s.rate <= 0 || s.samples <= 0 || s.packets <= 0 || (s.channels != 1 && s.channels != 2) || |s.gaps| == 0 {
      return false;
    }
    for i := 0 to |s.gaps|
      invariant forall k :: 0 <= k < i ==> s.gaps[k] > 0
    {
      if s.gaps[i] <= 0 {
        return false;
      }
    }
    ok := true;
  }

  /** Later packets start later, however the gaps are cycled. */
  lemma {:induction false} TimesRise(s: Shape, i: nat, j: nat)
    requires s.Valid()
    ensures i < j ==> s.Time(i) < s.Time(j)
    ensures i <= j ==> s.Time(i) <= s.Time(j)
    decreases j
  {
    if i < j {
      TimesRise(s, i, j - 1);
    }
  }
}
