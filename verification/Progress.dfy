/** The progress channel: throttled records of a job, written best-effort to a device that may
    take less than it is given. */
module Progress {
  import opened Basics
  import opened Timeline
  import MapSpec

  const EMIT_INTERVAL_US: int := 100_000
  const BUFFER: nat := 160

  datatype Record = Record(frames: nat, outTimeUs: nat, totalSize: nat, durationUs: nat) {
    predicate InInt64() {
      frames <= INT64_MAX && outTimeUs <= INT64_MAX && totalSize <= INT64_MAX && durationUs <= INT64_MAX
    }

    /** No field is below the other record's. */
    predicate Covers(r: Record) {
      frames >= r.frames && outTimeUs >= r.outTimeUs && totalSize >= r.totalSize && durationUs == r.durationUs
    }
  }

  // A key and its number, as they stand in a line.
  datatype Field = Field(key: string, value: nat)

  function Printed(f: Field): (s: string)
    ensures |s| == |f.key| + 3 + |Print(f.value)|
  {
    "\"" + f.key + "\":" + Print(f.value)
  }

  /** One record as the line the host parses. */
  function Line(r: Record): string {
    "{" + (Printed(Field("frame", r.frames)) + ("," + (Printed(Field("out_time_us", r.outTimeUs))
      + ("," + (Printed(Field("total_size", r.totalSize)) + ("," + (Printed(Field("duration_us", r.durationUs))
      + "}\n")))))))
  }

  function Lines(rs: seq<Record>): string {
    if rs == [] then "" else Lines(rs[..|rs| - 1]) + Line(rs[|rs| - 1])
  }

  lemma LinesSnoc(rs: seq<Record>, r: Record)
    ensures Lines(rs + [r]) == Lines(rs) + Line(r)
  {
    assert (rs + [r])[..|rs|] == rs;
  }

  function PowerOfTen(k: nat): nat {
    if k == 0 then 1 else 10 * PowerOfTen(k - 1)
  }

  lemma {:induction false} PrintLength(n: nat, k: nat)
    requires 0 < k && n < PowerOfTen(k)
    ensures |Print(n)| <= k
  {
    if n >= 10 {
      PrintLength(n / 10, k - 1);
    }
  }

  lemma TenToThe19()
    ensures PowerOfTen(19) > INT64_MAX
  {
    assert PowerOfTen(5) == 100_000;
    assert PowerOfTen(10) == 10 * (10 * (10 * (10 * (10 * PowerOfTen(5)))));
    assert PowerOfTen(15) == 10 * (10 * (10 * (10 * (10 * PowerOfTen(10)))));
    assert PowerOfTen(19) == 10 * (10 * (10 * (10 * PowerOfTen(15))));
  }

  /** A record of 64-bit fields always fits the line buffer, with its terminator. */
  lemma LineFits(r: Record)
    requires r.InInt64()
    ensures |Line(r)| < BUFFER
  {
    TenToThe19();
    PrintLength(r.frames, 19);
    PrintLength(r.outTimeUs, 19);
    PrintLength(r.totalSize, 19);
    PrintLength(r.durationUs, 19);
  }

  // ---- reading a line -------------------------------------------------------------

  // What reading a field leaves behind it.
  datatype Scanned = Scanned(field: Field, rest: string)

  function KeyLength(s: string): (n: nat)
    ensures n <= |s|
  {
    if s == "" || s[0] == '"' then 0 else 1 + KeyLength(s[1..])
  }

  /** A quoted key, a colon and a decimal numeral. */
  function ReadField(s: string): Option<Scanned> {
    if s == "" || s[0] != '"' then None
    else
      var k := KeyLength(s[1..]);
      var tail := s[1..][k..];
      if |tail| < 2 || tail[0] != '"' || tail[1] != ':' then None
      else
        var n := MapSpec.Run(tail[2..]);
        if n == 0 then None
        else Some(Scanned(Field(s[1..][..k], Decimal(tail[2..][..n])), tail[2..][n..]))
  }

  /** A field behind this separator. */
  function ReadNext(separator: char, s: string): Option<Scanned> {
    if s == "" || s[0] != separator then None else ReadField(s[1..])
  }

  /** Four fields between braces, and the line's end. */
  function ReadLine(line: string): Option<seq<Field>> {
    match ReadNext('{', line)
    case None => None
    case Some(a) =>
      match ReadNext(',', a.rest)
      case None => None
      case Some(b) =>
        match ReadNext(',', b.rest)
        case None => None
        case Some(c) =>
          match ReadNext(',', c.rest)
          case None => None
          case Some(d) => if d.rest == "}\n" then Some([a.field, b.field, c.field, d.field]) else None
  }

  lemma {:induction false} KeyLengthIs(key: string, rest: string)
    requires '"' !in key
    ensures KeyLength(key + "\"" + rest) == |key|
  {
    if key != "" {
      assert (key + "\"" + rest)[1..] == key[1..] + "\"" + rest;
      KeyLengthIs(key[1..], rest);
    }
  }

  lemma FieldReads(f: Field, rest: string)
    requires '"' !in f.key && (rest != "" ==> !Digit(rest[0]))
    ensures ReadField(Printed(f) + rest) == Some(Scanned(f, rest))
  {
    var digits := Print(f.value);
    hide Decimal, MapSpec.Run, KeyLength, Print;
    var (s, after) := (Printed(f) + rest, ":" + (digits + rest));
    assert s[1..] == f.key + "\"" + after;
    KeyLengthIs(f.key, after);
    BehindKey(f.key, digits + rest);
    MapSpec.RunOfNumeral(digits, rest);
    assert (digits + rest)[..|digits|] == digits && (digits + rest)[|digits|..] == rest;
  }

  lemma BehindKey(key: string, more: string)
    ensures var t := key + "\"" + (":" + more);
      && t[..|key|] == key && |t[|key|..]| >= 2 && t[|key|..][0] == '"' && t[|key|..][1] == ':'
      && t[|key|..][2..] == more
  {}

  lemma NextReads(separator: char, f: Field, rest: string)
    requires '"' !in f.key && (rest != "" ==> !Digit(rest[0]))
    ensures ReadNext(separator, [separator] + (Printed(f) + rest)) == Some(Scanned(f, rest))
  {
    hide ReadField, Printed;
    FieldReads(f, rest);
    assert ([separator] + (Printed(f) + rest))[1..] == Printed(f) + rest;
  }

  /** A line says which number is which. */
  lemma LineReads(r: Record)
    ensures ReadLine(Line(r)) == Some([Field("frame", r.frames), Field("out_time_us", r.outTimeUs),
                                       Field("total_size", r.totalSize), Field("duration_us", r.durationUs)])
  {
    var (a, b) := (Field("frame", r.frames), Field("out_time_us", r.outTimeUs));
    var (c, d) := (Field("total_size", r.totalSize), Field("duration_us", r.durationUs));
    hide Printed, ReadNext;
    var third := "," + (Printed(d) + "}\n");
    var second := "," + (Printed(c) + third);
    var first := "," + (Printed(b) + second);
    assert Line(r) == "{" + (Printed(a) + first);
    hide Line;
    NextReads('{', a, first);
    NextReads(',', b, second);
    NextReads(',', c, third);
    NextReads(',', d, "}\n");
  }

  // ---- a job's packets --------------------------------------------------------

  // One muxed packet as it is reported: outTimeUs is negative when its time is unknown.
  datatype Packet = Packet(isVideo: bool, outTimeUs: int64, size: int)

  /** What one packet adds to the totals. */
  function Add(r: Record, p: Packet): (s: Record)
    ensures s.Covers(r)
  {
    r.(frames := r.frames + (if p.isVideo then 1 else 0),
       outTimeUs := Max(r.outTimeUs, p.outTimeUs),
       totalSize := r.totalSize + Max(p.size, 0))
  }

  function Totals(durationUs: nat, ps: seq<Packet>): Record {
    if ps == [] then Record(0, 0, 0, durationUs) else Add(Totals(durationUs, ps[..|ps| - 1]), ps[|ps| - 1])
  }

  ghost function Videos(ps: seq<Packet>): set<nat> {
    set k: nat | k < |ps| && ps[k].isVideo
  }

  /** The totals count the video packets, and their time is the latest any packet had, or zero. */
  lemma {:induction false} TotalsCount(durationUs: nat, ps: seq<Packet>)
    ensures var r := Totals(durationUs, ps);
      && r.frames == |Videos(ps)| && r.durationUs == durationUs
      && (forall p <- ps :: p.outTimeUs <= r.outTimeUs)
      && (r.outTimeUs == 0 || exists p <- ps :: p.outTimeUs == r.outTimeUs)
  {
    if ps != [] {
      var (n, init) := (|ps| - 1, ps[..|ps| - 1]);
      TotalsCount(durationUs, init);
      assert forall k :: 0 <= k < n ==> init[k] == ps[k];
      if ps[n].isVideo {
        assert Videos(ps) == Videos(init) + {n} && n !in Videos(init);
      } else {
        assert Videos(ps) == Videos(init);
      }
    }
  }

  /** Sizes add up, whatever way the packets are parted; one that is not known adds nothing. */
  lemma {:induction false} SizesAdd(durationUs: nat, a: seq<Packet>, b: seq<Packet>)
    ensures Totals(durationUs, a + b).totalSize == Totals(durationUs, a).totalSize + Totals(durationUs, b).totalSize
    ensures |b| == 1 ==> Totals(durationUs, b).totalSize == if b[0].size > 0 then b[0].size else 0
  {
    if b == [] {
      assert a + b == a;
    } else {
      var (init, last) := (b[..|b| - 1], b[|b| - 1]);
      SizesAdd(durationUs, a, init);
      assert (a + b)[..|a + b| - 1] == a + init && (a + b)[|a + b| - 1] == last;
    }
  }

  ghost predicate Climbing(rs: seq<Record>) {
    forall i, j :: 0 <= i < j < |rs| ==> rs[j].Covers(rs[i])
  }

  /** Consecutive records are at least the interval of media time apart. */
  ghost predicate Throttled(rs: seq<Record>) {
    forall i :: 0 <= i < |rs| - 1 ==> rs[i + 1].outTimeUs - rs[i].outTimeUs >= EMIT_INTERVAL_US
  }

  /** So there are at most one of them, and one more for every interval of media time. */
  lemma {:induction false} ThrottleBounds(rs: seq<Record>)
    requires Throttled(rs) && rs != []
    ensures (|rs| - 1) * EMIT_INTERVAL_US <= rs[|rs| - 1].outTimeUs
  {
    var n := |rs| - 1;
    if n > 0 {
      ThrottleBounds(rs[..n]);
      assert rs[n - 1 + 1].outTimeUs - rs[n - 1].outTimeUs >= EMIT_INTERVAL_US;
    }
  }

  lemma RecordBound(rs: seq<Record>, t: nat)
    requires Throttled(rs) && (rs != [] ==> rs[|rs| - 1].outTimeUs <= t)
    ensures |rs| <= 1 + t / EMIT_INTERVAL_US
  {
    if rs != [] {
      ThrottleBounds(rs);
    }
  }

  // ---- the emitter ----------------------------------------------------------------

  class Emitter {
    var open: bool          // fd >= 0
    var frames: nat
    var outTimeUs: nat
    var totalSize: nat
    const durationUs: nat
    var lastEmitUs: nat
    var emitted: bool
    var channel: string     // everything the device has taken

    ghost var records: seq<Record>
    ghost var partial: string

    function Now(): Record
      reads this
    {
      Record(frames, outTimeUs, totalSize, durationUs)
    }

    /** The channel is whole records, then at most one partial line; nothing follows a partial line. */
    ghost predicate Valid()
      reads this
    {
      && channel == Lines(records) + partial
      && (partial != "" ==> !open && exists r :: partial < Line(r))
      && (emitted <==> records != [])
      && Climbing(records)
      && (records != [] ==> lastEmitUs == records[|records| - 1].outTimeUs && Now().Covers(records[|records| - 1]))
    }

    /** progress_open, given whether the device opened. */
    constructor (deviceOpened: bool, durationUs: int)
      ensures Valid() && open == deviceOpened && records == [] && channel == "" && partial == ""
      ensures Now() == Record(0, 0, 0, Max(durationUs, 0))
    {
      open := deviceOpened;
      frames, outTimeUs, totalSize, lastEmitUs, emitted := 0, 0, 0, 0, false;
      this.durationUs := if durationUs > 0 then durationUs else 0;
      channel, records, partial := "", [], "";
    }

    /** progress_emit. A line the device does not take whole is not a record, and is the last thing
        it is ever given. */
    method Emit()
      requires Valid()
      modifies `open, `emitted, `lastEmitUs, `channel, `records, `partial
      ensures Valid()
      ensures !old(open) ==> !open && channel == old(channel) && records == old(records)
      ensures old(open) && Now().InInt64() ==> records == if open then old(records) + [Now()] else old(records)
      ensures open || !Now().InInt64() || records == old(records)
      ensures records == old(records) || records == old(records) + [Now()]
    {
      hide Line, Lines;
      if !open { return; }
      if Now().InInt64() {
        LineFits(Now());
      }
      LinesSnoc(records, Now());
      var buf := Line(Now());
      if |buf| >= BUFFER { return; }
      var w: int :| -1 <= w <= |buf|;
      var taken := if w > 0 then buf[..w] else "";
      channel := channel + taken;
      if w != |buf| {
        open, partial := false, taken;
        return;
      }
      records := records + [Now()];
      emitted, lastEmitUs := true, outTimeUs;
    }

    /** The counting half of progress_note. */
    method Count(p: Packet)
      requires Valid()
      modifies `frames, `outTimeUs, `totalSize
      ensures Valid() && Now() == Add(old(Now()), p)
    {
      hide Line, Lines, Climbing;
      if p.size > 0 { totalSize := totalSize + p.size; }
      if p.isVideo { frames := frames + 1; }
      if p.outTimeUs >= 0 && p.outTimeUs > outTimeUs { outTimeUs := p.outTimeUs; }
    }

    /** progress_note. */
    method Note(p: Packet)
      requires Valid()
      modifies `open, `frames, `outTimeUs, `totalSize, `emitted, `lastEmitUs, `channel, `records, `partial
      ensures Valid() && Now() == Add(old(Now()), p)
      ensures records == old(records) || records == old(records) + [Now()]
      ensures old(Throttled(records)) ==> Throttled(records)
      ensures !old(open) ==> !open && channel == old(channel)
      // while the device keeps up, a record is missing only when one is not yet due
      ensures open && Now().InInt64() && records == old(records) ==>
        records != [] && outTimeUs - records[|records| - 1].outTimeUs < EMIT_INTERVAL_US
    {
      hide Line, Lines, Climbing, Add;
      Count(p);
      if !open { return; }
      if !emitted || outTimeUs - lastEmitUs >= EMIT_INTERVAL_US {
        Emit();
      }
    }

    /** A whole job: every packet reported, then the finishing record. */
    method Report(ps: seq<Packet>)
      requires Valid() && records == [] && Now() == Record(0, 0, 0, durationUs)
      modifies `open, `frames, `outTimeUs, `totalSize, `emitted, `lastEmitUs, `channel, `records, `partial
      ensures Valid() && Now() == Totals(durationUs, ps)
      // if every write was taken, the channel ends with the true totals
      ensures open && Now().InInt64() ==> records != [] && records[|records| - 1] == Totals(durationUs, ps)
      ensures |records| <= 2 + outTimeUs / EMIT_INTERVAL_US
    {
      hide Line, Lines, Climbing, Add, Totals;
      assert Throttled(records);
      hide Throttled;
      TotalsSoFar(ps, 0);
      for i := 0 to |ps|
        invariant Valid() && Now() == Totals(durationUs, ps[..i]) && Throttled(records)
      {
        TotalsSoFar(ps, i);
        Note(ps[i]);
      }
      assert ps[..|ps|] == ps;
      RecordBound(records, outTimeUs);
      Emit();
    }

    lemma TotalsSoFar(ps: seq<Packet>, i: nat)
      requires i <= |ps|
      ensures Totals(durationUs, []) == Record(0, 0, 0, durationUs) && ps[..0] == []
      ensures i < |ps| ==> Totals(durationUs, ps[..i + 1]) == Add(Totals(durationUs, ps[..i]), ps[i])
    {
      hide Add;
      if i < |ps| {
        assert ps[..i + 1][..i] == ps[..i];
      }
    }
  }
}
