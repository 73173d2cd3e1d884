/** The host's session loop, as it reads and answers one connection, against module Host's account
    of what a session does. */
module HostServer {
  import opened Basics
  import opened Wire
  import opened LocalFile
  import opened Host

  /** A driver's connection as the host sees it: everything the driver sends before it hangs up. */
  class Link {
    const input: seq<byte>
    var taken: nat
    var output: seq<byte>

    constructor (input: seq<byte>)
      ensures this.input == input && Left() == input && output == [] && Valid()
    {
      this.input := input;
      taken, output := 0, [];
    }

    ghost predicate Valid()
      reads this
    {
      taken <= |input|
    }

    function Left(): seq<byte>
      reads this
    {
      if taken <= |input| then input[taken..] else []
    }

    /** io.ReadFull: n bytes, or not enough of them came. */
    method ReadFull(n: nat) returns (bs: Option<seq<byte>>)
      requires Valid()
      modifies `taken
      ensures Valid()
      ensures bs.Some? <==> n <= |old(Left())|
      ensures bs.Some? ==> bs.value == old(Left())[..n] && Left() == old(Left())[n..]
    {
      if |input| - taken < n {
        taken := |input|;
        return None;
      }
      bs := Some(input[taken..taken + n]);
      taken := taken + n;
    }

    method Write(bs: seq<byte>)
      modifies `output
      ensures output == old(output) + bs
    {
      output := output + bs;
    }

    /** A count, then the bytes it counts if there are any. */
    method WriteCounted(count: seq<byte>, bs: seq<byte>)
      modifies `output
      ensures output == old(output) + (count + bs)
    {
      Write(count);
      if |bs| > 0 {
        Write(bs);
      }
    }
  }

  // How a frame leaves the loop: it goes on, the session is over, or the frame never came whole.
  datatype Outcome = Continue | Over(failed: bool) | Truncated

  /** A handler did what module Host says the frame does. `next` is where a session goes on from. */
  ghost predicate Did(served: Served, next: State, reply: seq<byte>, o: Outcome) {
    && reply == served.reply && next.disk == served.next.disk && next.readCount == served.next.readCount
    && (if served.next.phase.Ended? then o == Over(served.next.phase.failed) else o == Continue && next == served.next)
  }

  /** One frame handled, tag and all: it is what module Host says of it, or it never came whole. */
  ghost predicate Stepped(s: State, input: seq<byte>, next: State, was: seq<byte>, now: seq<byte>, left: seq<byte>,
                          o: Outcome)
  {
    match FrameLength(s.phase, input)
    case None => o == Truncated && now == was && next.disk == s.disk && next.readCount == s.readCount
    case Some(n) =>
      FrameLengthAlone(s.phase, input);
      left == input[n..] && was <= now && Did(ServeFrame(s, input[..n]), next, now[|was|..], o)
  }

  // ---- cutting the tag off a frame -------------------------------------------------

  /** A name after the tag, seen with the tag in front. */
  lemma TaggedName(tag: byte, rest: seq<byte>, at: nat, m: nat)
    ensures NameEnd([tag] + rest, at + 1) == match NameEnd(rest, at) { case None => None case Some(e) => Some(e + 1) }
    ensures NameEnd(rest, at).Some? && NameEnd(rest, at).value < m <= |rest| + 1 ==>
      && NameEnd(([tag] + rest)[..m], at + 1) == Some(NameEnd(rest, at).value + 1)
      && NameAt(([tag] + rest)[..m], at + 1) == NameAt(rest, at)
  {
    if |rest| >= at + 4 {
      assert ([tag] + rest)[at + 1..at + 5] == rest[at..at + 4];
      if NameEnd(rest, at).Some? && NameEnd(rest, at).value < m <= |rest| + 1 {
        var e := NameEnd(rest, at).value;
        assert ([tag] + rest)[..m][at + 1..at + 5] == rest[at..at + 4];
        assert ([tag] + rest)[..m][at + 5..e + 1] == rest[at + 4..e];
      }
    }
  }

  lemma OpenFrame(s: State, rest: seq<byte>)
    requires s.phase.Serving? && !s.phase.attempted
    ensures match NameEnd(rest, 1)
      case None => FrameLength(s.phase, [OPEN] + rest) == None
      case Some(n) =>
        && FrameLength(s.phase, [OPEN] + rest) == Some(n + 1)
        && FrameLength(s.phase, ([OPEN] + rest)[..n + 1]) == Some(n + 1)
        && ServeFrame(s, ([OPEN] + rest)[..n + 1]) == ServeOpen(s, rest[0], NameAt(rest, 1))
  {
    hide NameEnd, NameAt, ServeOpen;
    match NameEnd(rest, 1) {
      case None => TaggedName(OPEN, rest, 1, 0);
      case Some(n) =>
        NameEndFits(rest, 1);
        TaggedName(OPEN, rest, 1, n + 1);
        FrameLengthAlone(s.phase, [OPEN] + rest);
    }
  }

  lemma MoveFrame(s: State, rest: seq<byte>)
    requires s.phase.Serving? && s.phase.agreed >= NEGOTIATED && !s.phase.attempted
    ensures match TwoNames(rest)
      case None => FrameLength(s.phase, [MOVE] + rest) == None
      case Some((n, from, to)) =>
        && FrameLength(s.phase, [MOVE] + rest) == Some(n + 1)
        && FrameLength(s.phase, ([MOVE] + rest)[..n + 1]) == Some(n + 1)
        && ServeFrame(s, ([MOVE] + rest)[..n + 1]) == ServeMove(s, from, to)
  {
    hide NameEnd, NameAt, ServeMove;
    NameEndFits(rest, 0);
    TaggedName(MOVE, rest, 0, 0);
    if NameEnd(rest, 0).Some? {
      var at := NameEnd(rest, 0).value;
      TaggedName(MOVE, rest, at, 0);
      NameEndFits(rest, at);
      if NameEnd(rest, at).Some? {
        var n := NameEnd(rest, at).value;
        FrameLengthAlone(s.phase, [MOVE] + rest);
        TaggedName(MOVE, rest, 0, n + 1);
        TaggedName(MOVE, rest, at, n + 1);
      }
    }
  }

  lemma ExistsFrame(s: State, rest: seq<byte>)
    requires s.phase.Serving? && s.phase.agreed >= NEGOTIATED && !s.phase.attempted
    ensures match NameEnd(rest, 0)
      case None => FrameLength(s.phase, [EXISTS] + rest) == None
      case Some(n) =>
        && FrameLength(s.phase, [EXISTS] + rest) == Some(n + 1)
        && FrameLength(s.phase, ([EXISTS] + rest)[..n + 1]) == Some(n + 1)
        && ServeFrame(s, ([EXISTS] + rest)[..n + 1]) == ServeExists(s, NameAt(rest, 0))
  {
    hide NameEnd, NameAt, ServeExists;
    NameEndFits(rest, 0);
    TaggedName(EXISTS, rest, 0, 0);
    if NameEnd(rest, 0).Some? {
      FrameLengthAlone(s.phase, [EXISTS] + rest);
      TaggedName(EXISTS, rest, 0, NameEnd(rest, 0).value + 1);
    }
  }

  lemma WriteFrame(s: State, rest: seq<byte>)
    requires s.phase.Serving? && s.phase.open.Some?
    ensures match NameEnd(rest, 0)
      case None => FrameLength(s.phase, [WRITE] + rest) == None
      case Some(n) =>
        && FrameLength(s.phase, [WRITE] + rest) == Some(n + 1)
        && FrameLength(s.phase, ([WRITE] + rest)[..n + 1]) == Some(n + 1)
        && ServeFrame(s, ([WRITE] + rest)[..n + 1]) == ServeWrite(s, s.phase.open.value, NameAt(rest, 0))
  {
    hide NameEnd, NameAt, ServeWrite;
    NameEndFits(rest, 0);
    TaggedName(WRITE, rest, 0, 0);
    if NameEnd(rest, 0).Some? {
      FrameLengthAlone(s.phase, [WRITE] + rest);
      TaggedName(WRITE, rest, 0, NameEnd(rest, 0).value + 1);
    }
  }

  lemma ReadFrame(s: State, rest: seq<byte>)
    requires s.phase.Serving? && s.phase.open.Some?
    ensures |rest| < 4 ==> FrameLength(s.phase, [READ] + rest) == None
    ensures |rest| >= 4 ==>
      && FrameLength(s.phase, [READ] + rest) == FrameLength(s.phase, ([READ] + rest)[..5]) == Some(5)
      && ServeFrame(s, ([READ] + rest)[..5]) == ServeRead(s, s.phase.open.value, Get(rest[..4]))
  {
    hide ServeRead, Get;
    if |rest| >= 4 {
      assert ([READ] + rest)[..5][1..5] == rest[..4];
    }
  }

  lemma SeekFrame(s: State, rest: seq<byte>)
    requires s.phase.Serving? && s.phase.open.Some?
    ensures |rest| < 9 ==> FrameLength(s.phase, [SEEK] + rest) == None
    ensures |rest| >= 9 ==>
      && FrameLength(s.phase, [SEEK] + rest) == FrameLength(s.phase, ([SEEK] + rest)[..10]) == Some(10)
      && ServeFrame(s, ([SEEK] + rest)[..10]) == ServeSeek(s, s.phase.open.value, Signed64(rest[..8]), rest[8])
  {
    hide ServeSeek, Signed64;
    if |rest| >= 9 {
      assert ([SEEK] + rest)[..10][1..9] == rest[..8] && ([SEEK] + rest)[..10][9] == rest[8];
    }
  }

  /** The frames that are whole once their tag is there: what the session refuses, a close, a size
      and an unknown tag. */
  predicate TagAlone(p: Phase, tag: byte)
    requires p.Serving?
  {
    if tag == OPEN then p.attempted
    else if tag == MOVE || tag == EXISTS then p.agreed < NEGOTIATED || p.attempted
    else tag == CLOSE || p.open.None? || (tag != READ && tag != WRITE && tag != SEEK)
  }

  lemma TagFrame(s: State, tag: byte, rest: seq<byte>)
    requires s.phase.Serving? && TagAlone(s.phase, tag)
    ensures FrameLength(s.phase, [tag] + rest) == FrameLength(s.phase, ([tag] + rest)[..1]) == Some(1)
    ensures ServeFrame(s, ([tag] + rest)[..1]) ==
      if tag == SIZE && s.phase.open.Some? then Served(s, Put(8, |s.phase.open.value.file.data|))
      else Served(s.End(tag != CLOSE || !s.phase.attempted), [])
  {
    hide Put;
  }

  lemma NameEndFits(rest: seq<byte>, at: nat)
    ensures NameEnd(rest, at).Some? ==> at + 4 <= NameEnd(rest, at).value <= |rest|
  {}

  // ---- the session ------------------------------------------------------------------

  /** Whether a session that has read all it could counts as failed: it says so itself, or the
      driver hung up before the preamble or in the middle of a frame. */
  predicate Failed(all: Session) {
    match all.state.phase
    case Preamble => true
    case Serving(_, _, _) => all.rest != []
    case Ended(failed) => failed
  }

  /** What is left of a session once it stands at `now` with `left` to read is what is left of it. */
  ghost predicate OnCourse(all: Session, now: State, output: seq<byte>, left: seq<byte>) {
    var later := Serve(now, left);
    all == Session(later.state, output + later.output, later.rest)
  }

  /** One more frame keeps a session on course, and its end is the session's. */
  lemma StepOnCourse(all: Session, s: State, input: seq<byte>, next: State, was: seq<byte>, now: seq<byte>,
                     left: seq<byte>, o: Outcome)
    requires OnCourse(all, s, was, input) && s.phase.Serving? && input != []
    requires Stepped(s, input, next, was, now, left, o)
    ensures o == Continue ==> OnCourse(all, next, now, left) && |left| < |input|
    ensures o != Continue ==>
      && all.output == now && all.state.disk == next.disk && all.state.readCount == next.readCount
      && Failed(all) == (o == Truncated || o.failed)
  {
    hide ServeFrame, FrameLength;
    match FrameLength(s.phase, input)
    case None =>
    case Some(n) =>
      FrameLengthAlone(s.phase, input);
      var served := ServeFrame(s, input[..n]);
      assert was + served.reply == now;
      EndedServesNothing(served.next, input[n..]);
  }

  /** A driver that hangs up between frames ends the session well. */
  lemma HungUp(all: Session, s: State, output: seq<byte>)
    requires OnCourse(all, s, output, []) && s.phase.Serving?
    ensures all.output == output && all.state == s && !Failed(all)
  {}

  lemma PreambleFirst(s: State, input: seq<byte>)
    requires s.phase.Preamble?
    ensures input == [] ==> Serve(s, input) == Session(s, [], input)
    ensures input != [] ==>
      var served := ServePreamble(s, input[0]);
      OnCourse(Serve(s, input), served.next, served.reply, input[1..])
  {
    hide ServePreamble;
  }

  lemma EndedServesNothing(s: State, input: seq<byte>)
    ensures s.phase.Ended? ==> Serve(s, input) == Session(s, [], input)
  {}

  class Server {
    const cfg: Config
    var disk: map<Path, seq<byte>>
    var readCount: nat

    ghost function At(p: Phase): State
      reads this
    {
      State(cfg, disk, readCount, p)
    }

    /** readName. */
    method ReadName(conn: Link) returns (name: Option<Name>)
      requires conn.Valid()
      modifies conn`taken
      ensures conn.Valid() && (name.Some? <==> NameEnd(old(conn.Left()), 0).Some?)
      ensures name.Some? ==>
        && name.value == NameAt(old(conn.Left()), 0)
        && conn.Left() == old(conn.Left())[NameEnd(old(conn.Left()), 0).value..]
    {
      var n := conn.ReadFull(4);
      if n.None? {
        return None;
      }
      name := conn.ReadFull(Get(n.value));
    }

    /** doOpen. */
    method DoOpen(conn: Link, agreed: byte) returns (o: Outcome, f: Option<OpenFile>)
      requires conn.Valid()
      modifies conn, this
      ensures conn.Valid()
      ensures match NameEnd(old(conn.Left()), 1)
        case None => o == Truncated && conn.output == old(conn.output) && unchanged(this)
        case Some(n) =>
          && conn.Left() == old(conn.Left())[n..] && old(conn.output) <= conn.output
          && Did(ServeOpen(old(At(Serving(agreed, false, None))), old(conn.Left())[0], NameAt(old(conn.Left()), 1)),
                 At(Serving(agreed, true, f)), conn.output[|old(conn.output)|..], o)
    {
      hide NameEnd, NameAt, ServeOpen;
      ghost var left := conn.Left();
      NameEndFits(left, 1);
      var mode := conn.ReadFull(1);
      if mode.None? {
        return Truncated, None;
      }
      NameAfter(left, 1);
      var name := ReadName(conn);
      if name.None? {
        return Truncated, None;
      }
      o, f := OpenNamed(conn, mode.value[0], name.value, agreed);
    }

    /** doOpen, once the mode and the name are read. */
    method OpenNamed(conn: Link, mode: byte, name: Name, agreed: byte) returns (o: Outcome, f: Option<OpenFile>)
      modifies conn`output, this
      ensures old(conn.output) <= conn.output
      ensures Did(ServeOpen(old(At(Serving(agreed, false, None))), mode, name),
                  At(Serving(agreed, true, f)), conn.output[|old(conn.output)|..], o)
    {
      f := None;
      var full := cfg.resolve(name);
      if full.None? {
        conn.Write([1]);
        return Over(true), None;
      }
      if mode == MODE_READ {
        if full.value in disk { f := Some(OpenFile(full.value, File(disk[full.value], 0, false))); }
      } else if mode == MODE_WRITE {
        if cfg.creatable(full.value) {
          disk := disk[full.value := []];
          f := Some(OpenFile(full.value, File([], 0, true)));
        }
      } else {
        conn.Write([1]);
        return Over(true), None;
      }
      conn.Write([if f.Some? then 0 else 1]);
      o := Continue;
    }

    /** doMove. */
    method DoMove(conn: Link, ghost p: Phase) returns (o: Outcome)
      requires conn.Valid()
      modifies conn, this
      ensures conn.Valid()
      ensures TwoNames(old(conn.Left())).None? ==> o == Truncated && conn.output == old(conn.output) && unchanged(this)
      ensures TwoNames(old(conn.Left())).Some? ==>
        var (n, from, to) := TwoNames(old(conn.Left())).value;
        && conn.Left() == old(conn.Left())[n..] && old(conn.output) <= conn.output
        && Did(ServeMove(old(At(p)), from, to), At(p), conn.output[|old(conn.output)|..], o)
    {
      hide NameEnd, NameAt;
      ghost var left := conn.Left();
      NameEndFits(left, 0);
      var from := ReadName(conn);
      if from.None? {
        return Truncated;
      }
      NameAfter(left, NameEnd(left, 0).value);
      var to := ReadName(conn);
      if to.None? {
        return Truncated;
      }
      var src, dst := cfg.resolve(from.value), cfg.resolve(to.value);
      if src.None? || dst.None? {
        conn.Write([1]);
        return Over(true);
      }
      if src.value !in disk || !cfg.creatable(dst.value) {
        conn.Write([1]);
        return Over(false);
      }
      disk := (disk - {src.value})[dst.value := disk[src.value]];
      conn.Write([0]);
      o := Over(false);
    }

    /** doExists: a refused name's status is set only after it was sent. */
    method DoExists(conn: Link, ghost p: Phase) returns (o: Outcome)
      requires conn.Valid()
      modifies conn
      ensures conn.Valid()
      ensures NameEnd(old(conn.Left()), 0).None? ==> o == Truncated && conn.output == old(conn.output)
      ensures NameEnd(old(conn.Left()), 0).Some? ==>
        && conn.Left() == old(conn.Left())[NameEnd(old(conn.Left()), 0).value..] && old(conn.output) <= conn.output
        && Did(ServeExists(At(p), NameAt(old(conn.Left()), 0)), At(p), conn.output[|old(conn.output)|..], o)
    {
      hide NameEnd, NameAt;
      var name := ReadName(conn);
      if name.None? {
        return Truncated;
      }
      var full := cfg.resolve(name.value);
      if full.None? {
        conn.Write([0]);
        return Over(true);
      }
      var reply := StatReply(full.value);
      conn.Write(reply);
      o := Over(false);
    }

    /** Present and how big, or absent, in nine bytes. */
    method StatReply(full: Path) returns (bs: seq<byte>)
      ensures bs == if full in disk then [0] + Put(8, |disk[full]|) else [1] + Put(8, 0)
    {
      var reply := new byte[9](_ => 0);
      if full !in disk {
        PutZero(8);
        reply[0] := 1;
        assert reply[..] == [1] + seq(8, _ => 0);
      } else {
        assert reply[..1] == [0];
        PutInto(reply, 1, 8, |disk[full]|);
      }
      bs := reply[..];
    }

    /** doFrame, 'R', faults and all. */
    method DoRead(conn: Link, f: OpenFile, agreed: byte) returns (o: Outcome, g: OpenFile)
      requires conn.Valid()
      modifies conn, this
      ensures conn.Valid()
      ensures |old(conn.Left())| < 4 ==> o == Truncated && conn.output == old(conn.output) && unchanged(this)
      ensures |old(conn.Left())| >= 4 ==>
        && conn.Left() == old(conn.Left())[4..] && old(conn.output) <= conn.output
        && Did(ServeRead(old(At(Serving(agreed, true, Some(f)))), f, Get(old(conn.Left())[..4])),
               At(Serving(agreed, true, Some(g))), conn.output[|old(conn.output)|..], o)
    {
      hide Get, Put, File.Readable, File.AfterRead;
      g := f;
      var count := conn.ReadFull(4);
      if count.None? {
        return Truncated, g;
      }
      readCount := readCount + 1;
      if cfg.closeAfterReads > 0 && readCount > cfg.closeAfterReads {
        return Over(true), g;
      }
      if cfg.failReadsAfter > 0 && readCount > cfg.failReadsAfter {
        if agreed < NEGOTIATED {
          return Over(true), g;
        }
        conn.Write(Put(4, TWO32 - 1));
        return Continue, g;
      }
      var buf := f.file.Readable(Get(count.value));
      g := OpenFile(f.path, f.file.AfterRead(Get(count.value)));
      disk := disk[f.path := g.file.data];
      conn.WriteCounted(Put(4, |buf| + cfg.overstateReadBy), buf);
      o := Continue;
    }

    /** doFrame, 'W'. */
    method DoWrite(conn: Link, f: OpenFile, agreed: byte) returns (o: Outcome, g: OpenFile)
      requires conn.Valid()
      modifies conn, this
      ensures conn.Valid()
      ensures NameEnd(old(conn.Left()), 0).None? ==>
        o == Truncated && conn.output == old(conn.output) && unchanged(this)
      ensures NameEnd(old(conn.Left()), 0).Some? ==>
        && conn.Left() == old(conn.Left())[NameEnd(old(conn.Left()), 0).value..] && old(conn.output) <= conn.output
        && Did(ServeWrite(old(At(Serving(agreed, true, Some(f)))), f, NameAt(old(conn.Left()), 0)),
               At(Serving(agreed, true, Some(g))), conn.output[|old(conn.output)|..], o)
    {
      hide NameEnd, NameAt, File.CanWrite, File.AfterWrite;
      g := f;
      var buf := ReadName(conn);
      if buf.None? {
        return Truncated, g;
      }
      if !f.file.CanWrite(buf.value) {
        return Over(true), g;
      }
      g := OpenFile(f.path, f.file.AfterWrite(buf.value));
      disk := disk[f.path := g.file.data];
      var n := |buf.value|;
      if cfg.understateWriteBy > 0 {
        n := if n > cfg.understateWriteBy then n - cfg.understateWriteBy else 0;
      }
      conn.Write(Put(4, n));
      o := Continue;
    }

    /** doFrame, 'S'. */
    method DoSeek(conn: Link, f: OpenFile, agreed: byte) returns (o: Outcome, g: OpenFile)
      requires conn.Valid()
      modifies conn, this
      ensures conn.Valid()
      ensures |old(conn.Left())| < 9 ==> o == Truncated && conn.output == old(conn.output) && unchanged(this)
      ensures |old(conn.Left())| >= 9 ==>
        && conn.Left() == old(conn.Left())[9..] && old(conn.output) <= conn.output
        && Did(ServeSeek(old(At(Serving(agreed, true, Some(f)))), f,
                         Signed64(old(conn.Left())[..8]), old(conn.Left())[8]),
               At(Serving(agreed, true, Some(g))), conn.output[|old(conn.output)|..], o)
    {
      hide Signed64, Put;
      g := f;
      var offset := conn.ReadFull(8);
      if offset.None? {
        return Truncated, g;
      }
      var whence := conn.ReadFull(1);
      if whence.None? {
        return Truncated, g;
      }
      if !f.file.CanSeek(Signed64(offset.value), whence.value[0]) {
        return Over(true), g;
      }
      g := OpenFile(f.path, f.file.AfterSeek(Signed64(offset.value), whence.value[0]));
      disk := disk[f.path := g.file.data];
      conn.Write(Put(8, g.file.pos));
      o := Continue;
    }

    /** session. Everything it sends, does to the disk and reports is what module Host says of a
        driver that sends `conn.input` and hangs up. */
    method RunSession(conn: Link) returns (failed: bool)
      requires conn.Valid() && conn.taken == 0 && conn.output == []
      modifies conn, this
      ensures var all := Serve(old(At(Preamble)), conn.input);
        && conn.output == all.output && disk == all.state.disk && readCount == all.state.readCount
        && failed == Failed(all)
        // the file the driver left open is on the disk as it left it
        && (all.state.phase.Serving? && all.state.phase.open.Some? ==>
              var o := all.state.phase.open.value; o.path in disk && disk[o.path] == o.file.data)
    {
      hide Serve, Failed, OnCourse;
      ghost var all := Serve(At(Preamble), conn.input);
      SessionKeepsOnDisk(At(Preamble), conn.input);
      var refused, agreed := Greet(conn, all);
      if refused {
        return true;
      }
      var attempted, f := false, None;
      while true
        invariant conn.Valid() && (f.Some? ==> attempted)
        invariant OnCourse(all, At(Serving(agreed, attempted, f)), conn.output, conn.Left())
        decreases |conn.Left()|
      {
        var o;
        o, attempted, f := NextFrame(conn, all, agreed, attempted, f);
        if o != Continue {
          return o == Truncated || o.failed;
        }
      }
    }

    /** One round of the session's loop: a driver that hung up instead ends it well. */
    method NextFrame(conn: Link, ghost all: Session, agreed: byte, attempted: bool, f: Option<OpenFile>)
      returns (o: Outcome, tried: bool, g: Option<OpenFile>)
      requires conn.Valid() && (f.Some? ==> attempted)
      requires OnCourse(all, At(Serving(agreed, attempted, f)), conn.output, conn.Left())
      modifies conn, this
      ensures conn.Valid() && (g.Some? ==> tried)
      ensures o == Continue ==>
        OnCourse(all, At(Serving(agreed, tried, g)), conn.output, conn.Left()) && |conn.Left()| < |old(conn.Left())|
      ensures o != Continue ==>
        && conn.output == all.output && disk == all.state.disk && readCount == all.state.readCount
        && Failed(all) == (o == Truncated || o.failed)
    {
      hide Serve, Stepped, Failed, OnCourse;
      ghost var s, input, was := At(Serving(agreed, attempted, f)), conn.Left(), conn.output;
      var tag := conn.ReadFull(1);
      if tag.None? {
        HungUp(all, s, was);
        return Over(false), attempted, f;
      }
      assert input == [tag.value[0]] + conn.Left();
      o, tried, g := Frame(conn, tag.value[0], agreed, attempted, f);
      StepOnCourse(all, s, input, At(Serving(agreed, tried, g)), was, conn.output, conn.Left(), o);
    }

    /** The preamble, up to the answer. */
    method Greet(conn: Link, ghost all: Session) returns (refused: bool, agreed: byte)
      requires conn.Valid() && conn.taken == 0 && conn.output == [] && all == Serve(At(Preamble), conn.input)
      modifies conn
      ensures conn.Valid()
      ensures refused ==>
        Failed(all) && all.output == conn.output && all.state.disk == disk && all.state.readCount == readCount
      ensures !refused ==> OnCourse(all, At(Serving(agreed, false, None)), conn.output, conn.Left())
    {
      hide Serve;
      PreambleFirst(At(Preamble), conn.input);
      var version := conn.ReadFull(1);
      if version.None? {
        return true, 0;
      }
      agreed := version.value[0];
      var maxVer := if cfg.maxVersion > 0 then cfg.maxVersion else VERSION;
      if agreed < VERSION_MIN || agreed > maxVer {
        EndedServesNothing(At(Preamble).End(true), conn.Left());
        return true, 0;
      }
      if agreed >= NEGOTIATED && maxVer >= NEGOTIATED {
        conn.Write([agreed]);
      }
      refused := false;
    }

    /** The switch on a frame's tag. */
    method Frame(conn: Link, tag: byte, agreed: byte, attempted: bool, f: Option<OpenFile>)
      returns (o: Outcome, tried: bool, g: Option<OpenFile>)
      requires conn.Valid() && (f.Some? ==> attempted)
      modifies conn, this
      ensures conn.Valid() && (g.Some? ==> tried)
      ensures Stepped(old(At(Serving(agreed, attempted, f))), [tag] + old(conn.Left()), At(Serving(agreed, tried, g)),
                      old(conn.output), conn.output, conn.Left(), o)
    {
      hide FrameLength, ServeFrame, ServeOpen, ServeMove, ServeExists, NameEnd, NameAt;
      ghost var s, rest := At(Serving(agreed, attempted, f)), conn.Left();
      tried, g := attempted, f;
      if TagAlone(s.phase, tag) {
        TagFrame(s, tag, rest);
      }
      if tag == OPEN {
        if attempted { return Over(true), tried, g; }
        OpenFrame(s, rest);
        o, g := DoOpen(conn, agreed);
        tried := true;
      } else if tag == MOVE || tag == EXISTS {
        if agreed < NEGOTIATED || attempted { return Over(true), tried, g; }
        if tag == MOVE {
          MoveFrame(s, rest);
          o := DoMove(conn, s.phase);
        } else {
          ExistsFrame(s, rest);
          o := DoExists(conn, s.phase);
        }
      } else if tag == CLOSE {
        o := Over(!attempted);
      } else if f.None? {
        o := Over(true);
      } else {
        var h;
        o, h := FileFrame(conn, tag, agreed, f.value);
        g := Some(h);
      }
    }

    /** doFrame's switch. */
    method FileFrame(conn: Link, tag: byte, agreed: byte, f: OpenFile) returns (o: Outcome, g: OpenFile)
      requires conn.Valid() && tag != OPEN && tag != MOVE && tag != EXISTS && tag != CLOSE
      modifies conn, this
      ensures conn.Valid()
      ensures Stepped(old(At(Serving(agreed, true, Some(f)))), [tag] + old(conn.Left()),
                      At(Serving(agreed, true, Some(g))), old(conn.output), conn.output, conn.Left(), o)
    {
      hide FrameLength, ServeFrame, ServeRead, ServeWrite, ServeSeek, NameEnd, NameAt, Get, Put, Signed64;
      ghost var s, rest := At(Serving(agreed, true, Some(f))), conn.Left();
      g := f;
      if tag == READ {
        ReadFrame(s, rest);
        o, g := DoRead(conn, f, agreed);
      } else if tag == WRITE {
        WriteFrame(s, rest);
        o, g := DoWrite(conn, f, agreed);
      } else if tag == SEEK {
        SeekFrame(s, rest);
        o, g := DoSeek(conn, f, agreed);
      } else {
        TagFrame(s, tag, rest);
        if tag == SIZE {
          conn.Write(Put(8, |f.file.data|));
          o := Continue;
        } else {
          o := Over(true);
        }
      }
    }
  }

  lemma {:induction false} PutZero(k: nat)
    ensures Put(k, 0) == seq(k, _ => 0)
  {
    if k > 0 {
      PutZero(k - 1);
    }
  }

  /** Where two names one after the other end, and what they are. */
  function TwoNames(bs: seq<byte>): Option<(nat, Name, Name)> {
    match NameEnd(bs, 0)
    case None => None
    case Some(a) =>
      match NameEnd(bs, a)
      case None => None
      case Some(b) => Some((b, NameAt(bs, 0), NameAt(bs, a)))
  }

  /** A name some bytes further on is the name at the front of what follows them. */
  lemma NameAfter(bs: seq<byte>, at: nat)
    requires at <= |bs|
    ensures NameEnd(bs, at) == match NameEnd(bs[at..], 0) { case None => None case Some(e) => Some(at + e) }
    ensures NameEnd(bs, at).Some? ==>
      NameAt(bs, at) == NameAt(bs[at..], 0) && bs[NameEnd(bs, at).value..] == bs[at..][NameEnd(bs[at..], 0).value..]
  {
    if |bs| >= at + 4 {
      assert bs[at..][..4] == bs[at..at + 4];
    }
  }
}
