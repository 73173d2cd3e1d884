/** The host side of the bridge: one connection is one session, served frame by frame. */
module Host {
  import opened Basics
  import opened Wire
  import opened LocalFile

  type Name = seq<byte>
  type Path = seq<byte>

  const VERSION: byte := 2
  const VERSION_MIN: byte := 1
  const NEGOTIATED: byte := 2

  const OPEN: byte := 'O' as int
  const READ: byte := 'R' as int
  const WRITE: byte := 'W' as int
  const SEEK: byte := 'S' as int
  const SIZE: byte := 'Z' as int
  const CLOSE: byte := 'C' as int
  const MOVE: byte := 'M' as int
  const EXISTS: byte := 'E' as int
  const MODE_READ: byte := 'r' as int
  const MODE_WRITE: byte := 'w' as int

  /** How a host is set up: how it resolves names (None refuses one), which paths it can create,
      the version it admits to (0 for the current one) and the faults it injects. */
  datatype Config = Config(
    resolve: Name -> Option<Path>,
    creatable: Path -> bool,
    maxVersion: byte,
    overstateReadBy: nat,
    closeAfterReads: nat,
    understateWriteBy: nat,
    failReadsAfter: nat)
  {
    function MaxVersion(): byte {
      if maxVersion > 0 then maxVersion else VERSION
    }

    predicate Faultless() {
      overstateReadBy == closeAfterReads == understateWriteBy == failReadsAfter == 0
    }
  }

  datatype OpenFile = OpenFile(path: Path, file: File)

  /** Where one session stands. Serving: `attempted` once any operation was asked for, and the
      file if an Open succeeded. Ended: whether the session reported an error. */
  datatype Phase =
    | Preamble
    | Serving(agreed: byte, attempted: bool, open: Option<OpenFile>)
    | Ended(failed: bool)

  datatype State = State(cfg: Config, disk: map<Path, seq<byte>>, readCount: nat, phase: Phase) {
    function End(failed: bool): State {
      this.(phase := Ended(failed))
    }

    /** What the session's open file holds is what the disk holds. */
    predicate OnDisk() {
      phase.Serving? && phase.open.Some? ==>
        var o := phase.open.value; o.path in disk && disk[o.path] == o.file.data
    }

    /** The open file's new contents are the disk's. */
    function WithFile(path: Path, f: File): State
      requires phase.Serving?
    {
      this.(disk := disk[path := f.data], phase := phase.(open := Some(OpenFile(path, f))))
    }
  }

  // What one frame does: the session's next state and the bytes sent back.
  datatype Served = Served(next: State, reply: seq<byte>)

  // ---- framing --------------------------------------------------------------

  /** The length of a fixed part followed by a name whose length ends that part. */
  function NameEnd(input: seq<byte>, at: nat): Option<nat> {
    if |input| < at + 4 then None
    else
      var end := at + 4 + Get(input[at..at + 4]);
      if |input| < end then None else Some(end)
  }

  function Enough(input: seq<byte>, n: nat): Option<nat> {
    if |input| < n then None else Some(n)
  }

  /** How many bytes the next frame takes, once they are all there. A frame the session refuses
      is refused on its tag alone, before the rest of it is read. */
  function FrameLength(p: Phase, input: seq<byte>): (n: Option<nat>)
    ensures n.Some? ==> 0 < n.value <= |input|
  {
    if p.Ended? || input == [] then None
    else if p.Preamble? then Some(1)
    else
      var tag := input[0];
      if tag == OPEN then
        if p.attempted then Some(1) else NameEnd(input, 2)
      else if tag == MOVE || tag == EXISTS then
        if p.agreed < NEGOTIATED || p.attempted then Some(1)
        else if tag == EXISTS then NameEnd(input, 1)
        else if NameEnd(input, 1).None? then None else NameEnd(input, NameEnd(input, 1).value)
      else if tag == CLOSE || p.open.None? then Some(1)
      else if tag == READ then Enough(input, 5)
      else if tag == WRITE then NameEnd(input, 1)
      else if tag == SEEK then Enough(input, 10)
      else Some(1)
  }

  /** A frame's length never depends on what follows it. */
  lemma FrameLengthStable(p: Phase, input: seq<byte>, more: seq<byte>)
    requires FrameLength(p, input).Some?
    ensures FrameLength(p, input + more) == FrameLength(p, input)
  {
    hide NameEnd;
    NameEndStable(input, more, 1);
    NameEndStable(input, more, 2);
    if NameEnd(input, 1).Some? {
      NameEndStable(input, more, NameEnd(input, 1).value);
    }
  }

  lemma NameEndStable(input: seq<byte>, more: seq<byte>, at: nat)
    ensures NameEnd(input, at).Some? ==> NameEnd(input + more, at) == NameEnd(input, at)
  {
    if |input| >= at + 4 {
      assert (input + more)[at..at + 4] == input[at..at + 4];
    }
  }

  // ---- frames ---------------------------------------------------------------

  function ServePreamble(s: State, v: byte): Served {
    if v < VERSION_MIN || v > s.cfg.MaxVersion() then Served(s.End(true), [])
    else Served(s.(phase := Serving(v, false, None)), if v >= NEGOTIATED then [v] else [])
  }

  /** Open always answers with one status byte. A name that does not resolve or a mode that is
      neither 'r' nor 'w' ends the session; a file that is not there does not. */
  function ServeOpen(s: State, mode: byte, name: Name): Served
    requires s.phase.Serving?
  {
    var t := s.(phase := s.phase.(attempted := true));
    match s.cfg.resolve(name)
    case None => Served(t.End(true), [1])
    case Some(path) =>
      if mode == MODE_READ then
        if path in s.disk then Served(t.WithFile(path, File(s.disk[path], 0, false)), [0]) else Served(t, [1])
      else if mode == MODE_WRITE then
        if s.cfg.creatable(path) then Served(t.WithFile(path, File([], 0, true)), [0]) else Served(t, [1])
      else Served(t.End(true), [1])
  }

  function ServeMove(s: State, from: Name, to: Name): Served {
    match (s.cfg.resolve(from), s.cfg.resolve(to))
    case (Some(src), Some(dst)) =>
      if src in s.disk && s.cfg.creatable(dst)
      then Served(s.(disk := (s.disk - {src})[dst := s.disk[src]]).End(false), [0])
      else Served(s.End(false), [1])
    case _ => Served(s.End(true), [1])
  }

  /** A refused name is answered with a single zero byte before the session dies: the status is
      set after it was sent. */
  function ServeExists(s: State, name: Name): Served {
    match s.cfg.resolve(name)
    case None => Served(s.End(true), [0])
    case Some(path) =>
      if path in s.disk then Served(s.End(false), [0] + Put(8, |s.disk[path]|))
      else Served(s.End(false), [1] + Put(8, 0))
  }

  function ServeRead(s: State, o: OpenFile, count: nat): Served
    requires s.phase.Serving?
  {
    var t := s.(readCount := s.readCount + 1);
    if s.cfg.closeAfterReads > 0 && t.readCount > s.cfg.closeAfterReads then Served(t.End(true), [])
    else if s.cfg.failReadsAfter > 0 && t.readCount > s.cfg.failReadsAfter then
      if s.phase.agreed < NEGOTIATED then Served(t.End(true), []) else Served(t, Put(4, TWO32 - 1))
    else
      var bs := o.file.Readable(count);
      Served(t.WithFile(o.path, o.file.AfterRead(count)), Put(4, |bs| + s.cfg.overstateReadBy) + bs)
  }

  function ServeWrite(s: State, o: OpenFile, bs: seq<byte>): Served
    requires s.phase.Serving?
  {
    if !o.file.CanWrite(bs) then Served(s.End(true), [])
    else
      var ack := if |bs| > s.cfg.understateWriteBy then |bs| - s.cfg.understateWriteBy
                 else if s.cfg.understateWriteBy > 0 then 0 else |bs|;
      Served(s.WithFile(o.path, o.file.AfterWrite(bs)), Put(4, ack))
  }

  function ServeSeek(s: State, o: OpenFile, offset: int, whence: byte): Served
    requires s.phase.Serving?
  {
    if !o.file.CanSeek(offset, whence) then Served(s.End(true), [])
    else Served(s.WithFile(o.path, o.file.AfterSeek(offset, whence)), Put(8, o.file.Target(offset, whence)))
  }

  function NameAt(frame: seq<byte>, at: nat): Name
    requires NameEnd(frame, at).Some?
  {
    frame[at + 4..NameEnd(frame, at).value]
  }

  /** What one complete frame does. */
  function ServeFrame(s: State, frame: seq<byte>): Served
    requires FrameLength(s.phase, frame) == Some(|frame|)
  {
    if s.phase.Preamble? then ServePreamble(s, frame[0])
    else
      var p, tag := s.phase, frame[0];
      if tag == OPEN then
        if p.attempted then Served(s.End(true), []) else ServeOpen(s, frame[1], NameAt(frame, 2))
      else if tag == MOVE || tag == EXISTS then
        if p.agreed < NEGOTIATED || p.attempted then Served(s.End(true), [])
        else if tag == EXISTS then ServeExists(s, NameAt(frame, 1))
        else ServeMove(s, NameAt(frame, 1), NameAt(frame, NameEnd(frame, 1).value))
      else if tag == CLOSE then Served(s.End(!p.attempted), [])
      else if p.open.None? then Served(s.End(true), [])
      else
        var o := p.open.value;
        if tag == READ then ServeRead(s, o, Get(frame[1..5]))
        else if tag == WRITE then ServeWrite(s, o, NameAt(frame, 1))
        else if tag == SEEK then ServeSeek(s, o, Signed64(frame[1..9]), frame[9])
        else if tag == SIZE then Served(s, Put(8, |o.file.data|))
        else Served(s.End(true), [])
  }

  // ---- sessions ---------------------------------------------------------------

  // A session that has read all it can: its state, all it sent, and what it has not consumed.
  datatype Session = Session(state: State, output: seq<byte>, rest: seq<byte>)

  function Serve(s: State, input: seq<byte>): Session
    decreases |input|
  {
    match FrameLength(s.phase, input)
    case None => Session(s, [], input)
    case Some(n) =>
      FrameLengthAlone(s.phase, input);
      var served := ServeFrame(s, input[..n]);
      var later := Serve(served.next, input[n..]);
      Session(later.state, served.reply + later.output, later.rest)
  }

  /** A frame cut out of the stream is a whole frame. */
  lemma FrameLengthAlone(p: Phase, input: seq<byte>)
    requires FrameLength(p, input).Some?
    ensures var n := FrameLength(p, input).value; FrameLength(p, input[..n]) == Some(n)
  {
    hide NameEnd;
    var n := FrameLength(p, input).value;
    NameEndAlone(input, n, 1);
    NameEndAlone(input, n, 2);
    if NameEnd(input, 1).Some? {
      NameEndAlone(input, n, NameEnd(input, 1).value);
    }
  }

  lemma NameEndAlone(input: seq<byte>, n: nat, at: nat)
    requires n <= |input|
    ensures NameEnd(input, at).Some? ==> at < NameEnd(input, at).value <= |input|
    ensures NameEnd(input, at).Some? && NameEnd(input, at).value <= n ==> NameEnd(input[..n], at) == NameEnd(input, at)
  {
    if n >= at + 4 {
      assert input[..n][at..at + 4] == input[at..at + 4];
    }
  }

  /** Whatever has been served stays served: more input only adds to it. */
  lemma {:induction false} ServeAppend(s: State, a: seq<byte>, b: seq<byte>)
    requires Serve(s, a).rest == []
    ensures var (first, both) := (Serve(s, a), Serve(s, a + b));
      var second := Serve(first.state, b);
      both == Session(second.state, first.output + second.output, second.rest)
    decreases |a|
  {
    hide FrameLength, ServeFrame;
    match FrameLength(s.phase, a)
    case None =>
      assert a == [] && a + b == b;
    case Some(n) =>
      FrameLengthStable(s.phase, a, b);
      assert (a + b)[..n] == a[..n] && (a + b)[n..] == a[n..] + b;
      FrameLengthAlone(s.phase, a);
      ServeAppend(ServeFrame(s, a[..n]).next, a[n..], b);
  }

  /** One whole frame after everything before it was consumed. */
  lemma ServeOneMore(s: State, sent: seq<byte>, frame: seq<byte>)
    requires Serve(s, sent).rest == []
    requires FrameLength(Serve(s, sent).state.phase, frame) == Some(|frame|)
    ensures var first := Serve(s, sent);
      var served := ServeFrame(first.state, frame);
      Serve(s, sent + frame) == Session(served.next, first.output + served.reply, [])
  {
    var first := Serve(s, sent);
    ServeAppend(s, sent, frame);
    assert frame[..|frame|] == frame && frame[|frame|..] == [];
    hide ServeFrame;
    assert Serve(ServeFrame(first.state, frame).next, []) == Session(ServeFrame(first.state, frame).next, [], []);
  }

  // ---- what a session leaves on disk ----------------------------------------------

  lemma FrameKeepsOnDisk(s: State, frame: seq<byte>)
    requires FrameLength(s.phase, frame) == Some(|frame|) && s.OnDisk()
    ensures ServeFrame(s, frame).next.OnDisk()
  {
    hide NameEnd, NameAt;
  }

  /** Whatever a driver sends, at the end the open file is on the disk. */
  lemma {:induction false} SessionKeepsOnDisk(s: State, input: seq<byte>)
    requires s.OnDisk()
    ensures Serve(s, input).state.OnDisk()
    decreases |input|
  {
    hide ServeFrame, FrameLength, State.OnDisk;
    match FrameLength(s.phase, input)
    case None =>
    case Some(n) =>
      FrameLengthAlone(s.phase, input);
      FrameKeepsOnDisk(s, input[..n]);
      SessionKeepsOnDisk(ServeFrame(s, input[..n]).next, input[n..]);
  }

  /** From s to t nothing changed on disk but what is at that path, if there is one; and t, if it still
      serves, has the file at the same path open in the same mode. */
  ghost predicate OnlyAt(open: Option<OpenFile>, s: State, t: State) {
    && (forall q: Path :: (open.Some? ==> q != open.value.path) ==>
          (q in s.disk <==> q in t.disk) && (q in s.disk ==> t.disk[q] == s.disk[q]))
    && (open.Some? && !open.value.file.writable && s.OnDisk() ==> t.disk == s.disk)
    && (t.phase.Serving? ==>
          && t.phase.attempted && (t.phase.open.Some? <==> open.Some?)
          && (open.Some? ==> t.phase.open.value.path == open.value.path
                             && t.phase.open.value.file.writable == open.value.file.writable))
  }

  lemma FrameOnlyAt(s: State, frame: seq<byte>)
    requires FrameLength(s.phase, frame) == Some(|frame|) && s.phase.Serving? && s.phase.attempted
    ensures OnlyAt(s.phase.open, s, ServeFrame(s, frame).next)
  {
    hide NameEnd, NameAt, File.CanSeek;
  }

  /** Once a session asked for its file it touches no other; and one it may only read, it leaves as it
      was. */
  lemma {:induction false} SessionOnlyAt(s: State, input: seq<byte>)
    requires s.phase.Serving? && s.phase.attempted
    ensures OnlyAt(s.phase.open, s, Serve(s, input).state)
    decreases |input|
  {
    hide ServeFrame, FrameLength;
    match FrameLength(s.phase, input)
    case None =>
    case Some(n) =>
      FrameLengthAlone(s.phase, input);
      FrameOnlyAt(s, input[..n]);
      var next := ServeFrame(s, input[..n]).next;
      if next.phase.Serving? {
        if s.OnDisk() { FrameKeepsOnDisk(s, input[..n]); }
        SessionOnlyAt(next, input[n..]);
      } else {
        FrameNeverRestarts(s, input[..n]);
        assert FrameLength(next.phase, input[n..]) == None by {
          NothingAfterEnd(next, input[n..]);
        }
      }
  }

  lemma NothingAfterEnd(s: State, input: seq<byte>)
    requires s.phase.Ended?
    ensures FrameLength(s.phase, input) == None
  {}

  lemma FrameNeverRestarts(s: State, frame: seq<byte>)
    requires FrameLength(s.phase, frame) == Some(|frame|)
    ensures !ServeFrame(s, frame).next.phase.Preamble?
  {
    hide NameEnd, NameAt;
  }

  // ---- the faults a host can be told to inject -----------------------------------------

  /** Reads are counted over all sessions of a host. One told to vanish after so many reads serves exactly
      those; one told to fail them does so from the next one on, by a count of -1 in v2 and by leaving
      in v1. */
  lemma ReadFaults(s: State, o: OpenFile, count: nat)
    requires s.phase.Serving?
    ensures var r := ServeRead(s, o, count);
      && r.next.readCount == s.readCount + 1
      && (s.cfg.closeAfterReads > 0 && s.readCount >= s.cfg.closeAfterReads ==>
            r == Served(r.next, []) && r.next.phase == Ended(true))
      && (s.cfg.closeAfterReads == 0 && s.cfg.failReadsAfter > 0 && s.readCount >= s.cfg.failReadsAfter ==>
            if s.phase.agreed < NEGOTIATED then r == Served(r.next, []) && r.next.phase == Ended(true)
            else r.next.phase == s.phase && |r.reply| == 4 && Get(r.reply) == TWO32 - 1)
      && ((s.cfg.closeAfterReads == 0 || s.readCount < s.cfg.closeAfterReads)
          && (s.cfg.failReadsAfter == 0 || s.readCount < s.cfg.failReadsAfter) ==>
            r.next.phase.Serving? && r.reply[4..] == o.file.Readable(count))
  {
    Widths();
    GetPut(4, TWO32 - 1);
  }
}
