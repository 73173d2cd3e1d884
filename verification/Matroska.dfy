/** The chapter fixture: a Matroska segment whose Cues index, section 5.1.5 of RFC 9559, names
    byte offsets that are computed while the clusters are still being written. */
module Matroska {
  import opened Basics
  import opened Wire
  import opened Ebml
  import opened ChapterAtoms

  const EBML: Id := [0x1A, 0x45, 0xDF, 0xA3]
  const SEGMENT: Id := [0x18, 0x53, 0x80, 0x67]
  const INFO: Id := [0x15, 0x49, 0xA9, 0x66]
  const TIME_SCALE: Id := [0x2A, 0xD7, 0xB1]
  const DURATION: Id := [0x44, 0x89]
  const MUXING_APP: Id := [0x4D, 0x80]
  const WRITING_APP: Id := [0x57, 0x41]
  const TRACKS: Id := [0x16, 0x54, 0xAE, 0x6B]
  const TRACK_ENTRY: Id := [0xAE]
  const TRACK_NUMBER: Id := [0xD7]
  const TRACK_UID: Id := [0x73, 0xC5]
  const TRACK_TYPE: Id := [0x83]
  const CODEC_ID: Id := [0x86]
  const CUES: Id := [0x1C, 0x53, 0xBB, 0x6B]
  const CUE_POINT: Id := [0xBB]
  const CUE_TIME: Id := [0xB3]
  const CUE_TRACK_POSITIONS: Id := [0xB7]
  const CUE_TRACK: Id := [0xF7]
  const CUE_CLUSTER: Id := [0xF1]
  const CLUSTER: Id := [0x1F, 0x43, 0xB6, 0x75]
  const TIMECODE: Id := [0xE7]
  const SIMPLE_BLOCK: Id := [0xA3]

  // ---- what is written --------------------------------------------------------

  const BLOCK: seq<byte> := [0x81, 0, 0, 0, 0x20]

  /** The cluster at `ms`: its timecode and one empty block. */
  function ClusterAt(ms: nat): seq<byte>
    requires ms < TWO64
  {
    El(CLUSTER, UintEl(TIMECODE, ms) + El(SIMPLE_BLOCK, BLOCK))
  }

  /** The index entry that says the cluster at `ms` is at `pos` in the segment's data. */
  function CuePointAt(ms: nat, pos: nat): (bs: seq<byte>)
    requires ms < TWO64 && pos < TWO64
    ensures |bs| <= 128
  {
    El(CUE_POINT, CuePayload(ms, pos))
  }

  function CuePayload(ms: nat, pos: nat): (bs: seq<byte>)
    requires ms < TWO64 && pos < TWO64
    ensures |bs| <= 100
  {
    UintEl(CUE_TIME, ms) + El(CUE_TRACK_POSITIONS, UintEl(CUE_TRACK, 1) + UintEl(CUE_CLUSTER, pos))
  }

  const MAX_CLUSTERS: nat := MAX_SECONDS + 1

  /** The first n clusters, one a second. */
  function Clusters(n: nat): (bs: seq<byte>)
    requires n <= MAX_CLUSTERS
    ensures |bs| <= 64 * n
  {
    if n == 0 then [] else Clusters(n - 1) + ClusterAt((n - 1) * 1000)
  }

  /** Their index, for clusters that start `base` bytes into the segment's data. */
  function CuePoints(base: nat, n: nat): (bs: seq<byte>)
    requires n <= MAX_CLUSTERS && base < TWO56
    ensures |bs| <= 128 * n
  {
    if n == 0 then [] else CuePoints(base, n - 1) + CuePointAt((n - 1) * 1000, base + |Clusters(n - 1)|)
  }

  // ---- what is read -----------------------------------------------------------------

  // One index entry: a time, and the position it claims for the cluster of that time.
  datatype Cue = Cue(time: nat, pos: nat)

  function ReadCue(point: seq<byte>): Option<Cue> {
    var time := ChildUint(point, CUE_TIME);
    var track := ChildPayload(point, CUE_TRACK_POSITIONS);
    if time.None? || track.None? then None
    else
      var pos := ChildUint(track.value, CUE_CLUSTER);
      if pos.None? then None else Some(Cue(time.value, pos.value))
  }

  function ReadPoints(points: seq<Elem>): Option<seq<Cue>> {
    if points == [] then Some([])
    else
      var n := |points| - 1;
      var (init, last) := (ReadPoints(points[..n]), ReadCue(points[n].payload));
      if init.None? || last.None? then None else Some(init.value + [last.value])
  }

  /** The index a reader of the segment's data finds. */
  function ReadIndex(data: seq<byte>): Option<seq<Cue>> {
    var cues := ChildPayload(data, CUES);
    if cues.None? || Children(cues.value).None? then None else ReadPoints(Children(cues.value).value)
  }

  /** The timecode of the cluster at a position of the segment's data. */
  function TimeOfClusterAt(data: seq<byte>, pos: nat): Option<nat> {
    if pos > |data| then None
    else
      var p := Parse(data[pos..]);
      if p.None? || p.value.elem.id != CLUSTER then None else ChildUint(p.value.elem.payload, TIMECODE)
  }

  /** The index of a segment's data lists n clusters, one a second, each where it says. */
  ghost predicate IndexIsRight(data: seq<byte>, n: nat) {
    var cs := ReadIndex(data);
    && cs.Some? && |cs.value| == n
    && forall k :: 0 <= k < n ==>
        cs.value[k].time == k * 1000 && TimeOfClusterAt(data, cs.value[k].pos) == Some(k * 1000)
  }

  // ---- the index is right -------------------------------------------------------------

  lemma ClusterReads(ms: nat, rest: seq<byte>)
    requires ms < TWO64
    ensures var payload := UintEl(TIMECODE, ms) + El(SIMPLE_BLOCK, BLOCK);
      && Parse(ClusterAt(ms) + rest) == Some(Parsed(Elem(CLUSTER, payload), rest))
      && ChildUint(payload, TIMECODE) == Some(ms)
  {
    PayloadFits(ms);
    ElReadsBack(CLUSTER, UintEl(TIMECODE, ms) + El(SIMPLE_BLOCK, BLOCK), rest);
    OnlyChild(SIMPLE_BLOCK, BLOCK);
    ChildrenOfEl(TIMECODE, UintPayload(ms), El(SIMPLE_BLOCK, BLOCK));
  }

  lemma CueReads(ms: nat, pos: nat)
    requires ms < TWO64 && pos < TWO64
    ensures Children(CuePointAt(ms, pos)) == Some([Elem(CUE_POINT, CuePayload(ms, pos))])
    ensures ReadCue(CuePayload(ms, pos)) == Some(Cue(ms, pos))
  {
    TrackReads(pos);
    PayloadFits(ms);
    var track := UintEl(CUE_TRACK, 1) + UintEl(CUE_CLUSTER, pos);
    var payload := CuePayload(ms, pos);
    OnlyChild(CUE_TRACK_POSITIONS, track);
    ChildrenOfEl(CUE_TIME, UintPayload(ms), El(CUE_TRACK_POSITIONS, track));
    FindSecond(Elem(CUE_TIME, UintPayload(ms)), Elem(CUE_TRACK_POSITIONS, track));
    OnlyChild(CUE_POINT, payload);
    hide Children, El, Find;
    assert ReadCue(payload) == Some(Cue(ms, pos));
  }

  lemma TrackReads(pos: nat)
    requires pos < TWO64
    ensures ChildUint(UintEl(CUE_TRACK, 1) + UintEl(CUE_CLUSTER, pos), CUE_CLUSTER) == Some(pos)
  {
    PayloadFits(1);
    PayloadFits(pos);
    OnlyChild(CUE_CLUSTER, UintPayload(pos));
    ChildrenOfEl(CUE_TRACK, UintPayload(1), UintEl(CUE_CLUSTER, pos));
    FindSecond(Elem(CUE_TRACK, UintPayload(1)), Elem(CUE_CLUSTER, UintPayload(pos)));
    hide Children, El, Find;
  }

  lemma OneClusterReads(ms: nat)
    requires ms < TWO64
    ensures Children(ClusterAt(ms)).Some? && Absent(Children(ClusterAt(ms)).value, CUES)
  {
    PayloadFits(ms);
    OnlyChild(CLUSTER, UintEl(TIMECODE, ms) + El(SIMPLE_BLOCK, BLOCK));
    assert CLUSTER[1] != CUES[1];
  }

  lemma Empty()
    ensures Clusters(0) == [] && CuePoints(0, 0) == []
    ensures Children([]) == Some([]) && Absent([], CUES) && ReadPoints([]) == Some([])
  {}

  /** The clusters are whole elements, none of them an index. */
  lemma {:induction false} ClustersRead(n: nat)
    requires n <= MAX_CLUSTERS
    ensures Children(Clusters(n)).Some? && Absent(Children(Clusters(n)).value, CUES)
  {
    Empty();
    hide Children, ClusterAt, Parse, El, Absent;
    if n > 0 {
      var ms := (n - 1) * 1000;
      ClustersRead(n - 1);
      OneClusterReads(ms);
      ChildrenConcat(Clusters(n - 1), ClusterAt(ms));
      AbsentConcat(Children(Clusters(n - 1)).value, Children(ClusterAt(ms)).value, CUES);
    }
  }

  /** Where cluster k starts, and what is parsed there. */
  lemma {:induction false} ClusterStarts(front: seq<byte>, n: nat, k: nat, tail: seq<byte>)
    requires k < n <= MAX_CLUSTERS
    ensures TimeOfClusterAt(front + Clusters(n) + tail, |front| + |Clusters(k)|) == Some(k * 1000)
  {
    hide TimeOfClusterAt, ClusterAt;
    var ms := (n - 1) * 1000;
    var (before, here) := (Clusters(n - 1), ClusterAt(ms));
    assert front + Clusters(n) + tail == front + before + (here + tail);
    if k == n - 1 {
      ClusterAtReads(front + before, ms, tail);
    } else {
      ClusterStarts(front, n - 1, k, here + tail);
    }
  }

  lemma ClusterAtReads(before: seq<byte>, ms: nat, tail: seq<byte>)
    requires ms < TWO64
    ensures TimeOfClusterAt(before + (ClusterAt(ms) + tail), |before|) == Some(ms)
  {
    ClusterReads(ms, tail);
    Slices(before, ClusterAt(ms) + tail, 0, |before|);
    hide Parse, Children, ClusterAt, UintEl, El;
    assert before[|before|..] + (ClusterAt(ms) + tail) == ClusterAt(ms) + tail;
  }

  lemma ReadPointsSnoc(points: seq<Elem>, e: Elem)
    requires ReadPoints(points).Some? && ReadCue(e.payload).Some?
    ensures ReadPoints(points + [e]) == Some(ReadPoints(points).value + [ReadCue(e.payload).value])
  {
    assert (points + [e])[..|points|] == points;
    hide ReadCue;
  }

  /** The index lists the clusters in order, each with the place it starts. */
  lemma {:induction false} PointsRead(base: nat, n: nat)
    requires n <= MAX_CLUSTERS && base < TWO56
    ensures Children(CuePoints(base, n)).Some?
    ensures var cs := ReadPoints(Children(CuePoints(base, n)).value);
      && cs.Some? && |cs.value| == n
      && forall k :: 0 <= k < n ==> cs.value[k] == Cue(k * 1000, base + |Clusters(k)|)
  {
    Empty();
    hide Children, ReadPoints, CuePointAt, CuePayload, ClusterAt, Clusters, ReadCue, Parse, El;
    if n > 0 {
      var (ms, pos) := ((n - 1) * 1000, base + |Clusters(n - 1)|);
      PointsRead(base, n - 1);
      CueReads(ms, pos);
      ChildrenConcat(CuePoints(base, n - 1), CuePointAt(ms, pos));
      ReadPointsSnoc(Children(CuePoints(base, n - 1)).value, Elem(CUE_POINT, CuePayload(ms, pos)));
    }
  }

  lemma CuesFound(front: seq<byte>, n: nat, cues: seq<byte>)
    requires n <= MAX_CLUSTERS && |front| < TWO56 && |cues| < TWO56 - 1
    requires Children(front).Some? && Absent(Children(front).value, CUES)
    ensures ChildPayload(front + Clusters(n) + El(CUES, cues), CUES) == Some(cues)
  {
    hide Children, Parse, El, Clusters, Absent, Find;
    ClustersRead(n);
    OnlyChild(CUES, cues);
    ChildrenConcat(front, Clusters(n));
    ChildrenConcat(front + Clusters(n), El(CUES, cues));
    AbsentConcat(Children(front).value, Children(Clusters(n)).value, CUES);
    FindAfter(Children(front + Clusters(n)).value, Elem(CUES, cues));
  }

  /** What is found in the front is found in the whole. */
  lemma FrontIsFound(front: seq<byte>, n: nat, cues: seq<byte>, id: Id)
    requires n <= MAX_CLUSTERS && |front| < TWO56 && |cues| < TWO56 - 1
    requires ChildPayload(front, id).Some?
    ensures ChildPayload(front + Clusters(n) + El(CUES, cues), id) == ChildPayload(front, id)
  {
    hide Children, Parse, El, Clusters, Find;
    ClustersRead(n);
    OnlyChild(CUES, cues);
    ChildrenConcat(front, Clusters(n));
    ChildrenConcat(front + Clusters(n), El(CUES, cues));
    FindFirst(Children(front).value, Children(Clusters(n)).value, id);
    FindFirst(Children(front + Clusters(n)).value, [Elem(CUES, cues)], id);
  }

  lemma {:induction false} FindFirst(a: seq<Elem>, b: seq<Elem>, id: Id)
    requires Find(a, id).Some?
    ensures Find(a + b, id) == Find(a, id)
  {
    if a[0].id != id {
      FindFirst(a[1..], b, id);
    }
    assert (a + b)[1..] == a[1..] + b;
  }

  /** Every entry of the index names the byte offset of the cluster whose timecode it states. */
  lemma IndexPointsAtClusters(front: seq<byte>, n: nat)
    requires n <= MAX_CLUSTERS && |front| < TWO56
    requires Children(front).Some? && Absent(Children(front).value, CUES)
    ensures IndexIsRight(front + Clusters(n) + El(CUES, CuePoints(|front|, n)), n)
  {
    hide Children, Absent, ChildPayload, El, Clusters, CuePoints, ReadPoints, TimeOfClusterAt;
    var cues := CuePoints(|front|, n);
    PointsRead(|front|, n);
    CuesFound(front, n, cues);
    forall k | 0 <= k < n
      ensures TimeOfClusterAt(front + Clusters(n) + El(CUES, cues), |front| + |Clusters(k)|) == Some(k * 1000)
    {
      ClusterStarts(front, n, k, El(CUES, cues));
    }
  }

  // ---- the file -----------------------------------------------------------------------

  function LastEnd(chapters: seq<Chapter>): (last: real)
    ensures last >= 0.0
  {
    if chapters == [] then 0.0
    else
      var (init, e) := (LastEnd(chapters[..|chapters| - 1]), chapters[|chapters| - 1].end);
      if e > init then e else init
  }

  /** No chapter ends later, and one of them ends then, or it is zero. */
  lemma {:induction false} LastIsLatest(chapters: seq<Chapter>)
    ensures forall c <- chapters :: c.end <= LastEnd(chapters)
    ensures LastEnd(chapters) == 0.0 || exists c <- chapters :: c.end == LastEnd(chapters)
  {
    if chapters != [] {
      var (init, last) := (chapters[..|chapters| - 1], chapters[|chapters| - 1]);
      LastIsLatest(init);
      assert chapters == init + [last];
      assert last in chapters && forall c <- init :: c in chapters;
    }
  }

  method Header() returns (bs: seq<byte>, ghost payload: seq<byte>)
    ensures |payload| < 256 && bs == El(EBML, payload)
  {
    hide El;
    var versions := El([0x42, 0x86], [1]) + El([0x42, 0xF7], [1]) + El([0x42, 0xF2], [4]) + El([0x42, 0xF3], [8]);
    var doc := El([0x42, 0x82], [0x6D, 0x61, 0x74, 0x72, 0x6F, 0x73, 0x6B, 0x61]);
    var content := versions + doc + El([0x42, 0x87], [4]) + El([0x42, 0x85], [2]);
    payload := content;
    bs := El(EBML, content);
  }

  lemma SecondsInside(k: nat, last: real)
    ensures (k * 1000) as real <= last * 1000.0 <==> k <= last.Floor
  {
    assert (k * 1000) as real == k as real * 1000.0;
  }

  /** Clusters and index grow together: each entry takes the offset its cluster is about to get. */
  method ClustersAndCues(base: nat, last: real) returns (clusters: seq<byte>, cues: seq<byte>)
    requires base < TWO56 && 0.0 <= last <= MAX_SECONDS as real
    ensures clusters == Clusters(last.Floor + 1) && cues == CuePoints(base, last.Floor + 1)
  {
    hide ClusterAt, CuePointAt;
    clusters, cues := [], [];
    var ms := 0;
    ghost var k: nat := 0;
    SecondsInside(0, last);
    while ms as real <= last * 1000.0
      invariant ms == k * 1000 && k <= last.Floor + 1
      invariant ms as real <= last * 1000.0 <==> k <= last.Floor
      invariant clusters == Clusters(k) && cues == CuePoints(base, k)
      decreases last.Floor + 1 - k
    {
      cues := cues + CuePointAt(ms, base + |clusters|);
      clusters := clusters + ClusterAt(ms);
      ms, k := ms + 1000, k + 1;
      SecondsInside(k, last);
    }
  }

  /** MatroskaWithChapters: refuses a chapter that is not a usable range; otherwise the file's
      index is right, and the chapters read from it are the ones asked for. floatBits is the
      eight-byte encoding of a float. */
  method WithChapters(chapters: seq<Chapter>, floatBits: real -> seq<byte>) returns (file: Option<seq<byte>>)
    requires (forall x :: |floatBits(x)| == 8) && AtomRoom(chapters) < TITLE_ROOM
    ensures file.None? <==> !AllUsable(chapters)
    ensures file.Some? ==>
      var data := ChildPayload(file.value, SEGMENT);
      && data.Some? && IndexIsRight(data.value, LastEnd(chapters).Floor + 1)
      && ReadChapters(data.value) == Some(Entries(chapters))
  {
    hide IndexIsRight, ChildPayload, El, Children, Clusters, CuePoints, LastEnd, ReadChapters, Edition, AllUsable;
    var usable := CheckUsable(chapters);
    if !usable {
      return None;
    }
    var header, payload := Header();
    var last := Latest(chapters);
    var front := Front(chapters, last, floatBits);
    var clusters, cues := ClustersAndCues(|front|, last);
    IndexPointsAtClusters(front, last.Floor + 1);
    var data := front + clusters + El(CUES, cues);
    FrontIsFound(front, last.Floor + 1, cues, CHAPTERS);
    ChaptersReadBack(chapters, data);
    SegmentReads(payload, data);
    file := Some(header + El(SEGMENT, data));
  }

  method CheckUsable(chapters: seq<Chapter>) returns (ok: bool)
    ensures ok <==> AllUsable(chapters)
  {
    for i := 0 to |chapters|
      invariant forall k :: 0 <= k < i ==> chapters[k].Usable()
    {
      if !chapters[i].Usable() {
        return false;
      }
    }
    ok := true;
  }

  method Latest(chapters: seq<Chapter>) returns (last: real)
    requires AllUsable(chapters)
    ensures last == LastEnd(chapters) && 0.0 <= last <= MAX_SECONDS as real
  {
    last := 0.0;
    for i := 0 to |chapters|
      invariant last == LastEnd(chapters[..i]) && 0.0 <= last <= MAX_SECONDS as real
    {
      assert chapters[..i + 1][..i] == chapters[..i];
      if chapters[i].end > last {
        last := chapters[i].end;
      }
    }
    assert chapters[..|chapters|] == chapters;
  }

  lemma SegmentReads(payload: seq<byte>, data: seq<byte>)
    requires |payload| < 256 && |data| < TWO56 - 1
    ensures ChildPayload(El(EBML, payload) + El(SEGMENT, data), SEGMENT) == Some(data)
  {
    OnlyChild(SEGMENT, data);
    ChildrenOfEl(EBML, payload, El(SEGMENT, data));
    FindSecond(Elem(EBML, payload), Elem(SEGMENT, data));
  }

  /** Info, Tracks and Chapters: everything in the segment's data before the clusters. */
  method Front(chapters: seq<Chapter>, last: real, floatBits: real -> seq<byte>) returns (front: seq<byte>)
    requires (forall x :: |floatBits(x)| == 8) && Fit(chapters)
    ensures Children(front).Some? && Absent(Children(front).value, CUES) && |front| < TWO56 / 2
    ensures ChildPayload(front, CHAPTERS) == Some(El(EDITION, Edition(chapters)))
  {
    var app: seq<byte> := [0x66, 0x66, 0x6D, 0x70, 0x65, 0x67, 0x2D, 0x77, 0x61, 0x73, 0x69, 0x2F, 0x69, 0x6E, 0x74,
      0x65, 0x72, 0x6E, 0x61, 0x6C, 0x2F, 0x66, 0x69, 0x78, 0x74, 0x75, 0x72, 0x65];
    var info := UintEl(TIME_SCALE, 1_000_000) + El(DURATION, floatBits(last * 1000.0))
      + El(MUXING_APP, app) + El(WRITING_APP, app);
    var codec: seq<byte> := [0x53, 0x5F, 0x54, 0x45, 0x58, 0x54, 0x2F, 0x55, 0x54, 0x46, 0x38];
    var tracks := El(TRACK_ENTRY, UintEl(TRACK_NUMBER, 1) + UintEl(TRACK_UID, 1) + UintEl(TRACK_TYPE, 17)
      + El(CODEC_ID, codec));
    var atoms := Atoms(chapters);
    var edition := El(EDITION, UintEl(EDITION_UID, 1) + atoms);
    ThreeChildren(info, tracks, edition);
    front := El(INFO, info) + (El(TRACKS, tracks) + (El(CHAPTERS, edition) + []));
  }

  lemma NotAnIndex(id: Id, payload: seq<byte>, rest: seq<byte>, other: Id)
    requires ValidId(id) && id != CUES && |payload| < TWO56 - 1
    requires Children(rest).Some? && Absent(Children(rest).value, CUES)
    ensures Children(El(id, payload) + rest).Some? && Absent(Children(El(id, payload) + rest).value, CUES)
    ensures Find(Children(El(id, payload) + rest).value, other)
         == if id == other then Some(payload) else Find(Children(rest).value, other)
  {
    hide Children, El, ValidId;
    ChildrenOfEl(id, payload, rest);
    assert ([Elem(id, payload)] + Children(rest).value)[1..] == Children(rest).value;
  }

  lemma ThreeChildren(info: seq<byte>, tracks: seq<byte>, edition: seq<byte>)
    requires |info| < 1024 && |tracks| < 1024 && |edition| < TWO56 / 2
    ensures var front := El(INFO, info) + (El(TRACKS, tracks) + (El(CHAPTERS, edition) + []));
      && Children(front).Some? && Absent(Children(front).value, CUES)
      && Find(Children(front).value, CHAPTERS) == Some(edition)
  {
    hide Children, El, Find;
    assert INFO[0] != CHAPTERS[0] && TRACKS[0] != CHAPTERS[0];
    assert INFO[0] != CUES[0] && TRACKS[0] != CUES[0] && CHAPTERS[0] != CUES[0];
    Empty();
    NotAnIndex(CHAPTERS, edition, [], CHAPTERS);
    NotAnIndex(TRACKS, tracks, El(CHAPTERS, edition) + [], CHAPTERS);
    NotAnIndex(INFO, info, El(TRACKS, tracks) + (El(CHAPTERS, edition) + []), CHAPTERS);
  }
}
