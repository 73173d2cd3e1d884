/** Whole sessions of the bridge: what a driver that opens a file finds in it, and what it leaves there. */
module Sessions {
  import opened Basics
  import opened Wire
  import opened LocalFile
  import opened Client
  import opened Dial
  import Host

  function Flat(chunks: seq<seq<byte>>): seq<byte> {
    if chunks == [] then [] else Flat(chunks[..|chunks| - 1]) + chunks[|chunks| - 1]
  }

  /** The requests that write these pieces. */
  function WriteRequests(chunks: seq<seq<byte>>): seq<byte>
    requires forall c <- chunks :: |c| < TWO31
  {
    if chunks == [] then []
    else
      assert chunks[|chunks| - 1] in chunks;
      WriteRequests(chunks[..|chunks| - 1]) + WriteRequest(chunks[|chunks| - 1])
  }

  /** A file written in pieces is the file written at once. */
  lemma {:induction false} WrittenInPieces(start: Host.State, sent: seq<byte>, f: File, chunks: seq<seq<byte>>)
    requires Holds(start, sent, f) && (forall c <- chunks :: |c| < TWO31) && f.CanWrite(Flat(chunks))
    ensures Holds(start, sent + WriteRequests(chunks), f.AfterWrite(Flat(chunks)))
  {
    hide Holds, File.AfterWrite, File.CanWrite, WriteRequest;
    if chunks == [] {
      EmptyWrite(f);
      assert sent + WriteRequests(chunks) == sent;
    } else {
      var (init, last) := (chunks[..|chunks| - 1], chunks[|chunks| - 1]);
      assert last in chunks;
      var before := sent + WriteRequests(init);
      assert sent + WriteRequests(chunks) == before + WriteRequest(last);
      assert Flat(chunks) == Flat(init) + last;
      hide Flat, WriteRequests;
      WritesJoin(f, Flat(init), last);
      WrittenInPieces(start, sent, f, init);
      AskWrite(start, before, f.AfterWrite(Flat(init)), last);
    }
  }

  /** An opened file: which one it is, and what the opening did to the disk. */
  lemma OpenedOnDisk(h: Host.State, v: byte, mode: byte, name: Host.Name)
    requires Waiting(h) && h.cfg.Faultless() && 1 <= v <= h.cfg.MaxVersion() && |name| < TWO32
    requires Opened(h, mode, name).Some?
    ensures var s := Host.Serve(h, [v] + OpenRequest(mode, name)).state;
      && s.phase.Serving? && s.phase.attempted && s.phase.open.Some?
      && h.cfg.resolve(name) == Some(s.phase.open.value.path)
      && s.phase.open.value.file == Opened(h, mode, name).value
      && s.disk == (if mode == Host.MODE_WRITE then h.disk[s.phase.open.value.path := []] else h.disk)
  {
    PreambleServed(h, v);
    OpenFrameServed(h, v, mode, name);
    hide Host.Serve, Host.FrameLength, Host.ServeFrame, OpenRequest;
    Host.ServeOneMore(h, [v], OpenRequest(mode, name));
  }

  /** What serving a and then b comes to. */
  lemma ServedOn(h: Host.State, a: seq<byte>, b: seq<byte>)
    requires Host.Serve(h, a).rest == []
    ensures Host.Serve(h, a + b).state == Host.Serve(Host.Serve(h, a).state, b).state
  {
    Host.ServeAppend(h, a, b);
  }

  /** A driver that opens a name for writing, writes these pieces and closes leaves them on the disk under
      that name, one after the other and nothing else, and every other file as it was. */
  lemma SessionStoresPieces(h: Host.State, v: byte, name: Host.Name, chunks: seq<seq<byte>>)
    requires Waiting(h) && h.cfg.Faultless() && 1 <= v <= h.cfg.MaxVersion() && |name| < TWO32
    requires h.cfg.resolve(name).Some? && h.cfg.creatable(h.cfg.resolve(name).value)
    requires (forall c <- chunks :: |c| < TWO31) && |Flat(chunks)| <= OFFSET_MAX
    ensures var s := Host.Serve(h, [v] + OpenRequest(Host.MODE_WRITE, name) + WriteRequests(chunks) + [Host.CLOSE]);
      && s.rest == [] && s.state.phase == Host.Ended(false)
      && s.state.disk == h.disk[h.cfg.resolve(name).value := Flat(chunks)]
  {
    hide Host.Serve, OpenRequest, WriteRequests, Flat, Holds, Host.OnlyAt, File.AfterWrite, File.CanWrite;
    var (path, open) := (h.cfg.resolve(name).value, [v] + OpenRequest(Host.MODE_WRITE, name));
    OpenServed(h, v, Host.MODE_WRITE, name);
    OpenedOnDisk(h, v, Host.MODE_WRITE, name);
    FromNothing(Flat(chunks));
    WrittenInPieces(h, open, File([], 0, true), chunks);
    HoldsMeans(h, open, File([], 0, true));
    HoldsMeans(h, open + WriteRequests(chunks), File(Flat(chunks), |Flat(chunks)|, true));
    ServedOn(h, open, WriteRequests(chunks));
    Host.SessionOnlyAt(Host.Serve(h, open).state, WriteRequests(chunks));
    OnlyTheFile(h, path, Host.Serve(h, open).state, Host.Serve(h, open + WriteRequests(chunks)).state);
    ClosedServed(h, open + WriteRequests(chunks));
  }

  lemma HoldsMeans(start: Host.State, sent: seq<byte>, f: File)
    requires Holds(start, sent, f)
    ensures var s := Host.Serve(start, sent);
      && s.rest == [] && s.state.phase.Serving? && s.state.phase.attempted && s.state.phase.open.Some?
      && s.state.phase.open.value.file == f && s.state.OnDisk()
  {}

  /** The disk as it was but for the one file. */
  lemma OnlyTheFile(h: Host.State, path: Host.Path, s: Host.State, t: Host.State)
    requires s.phase.Serving? && s.phase.open.Some? && s.phase.open.value.path == path
    requires s.disk == h.disk[path := []] && Host.OnlyAt(s.phase.open, s, t)
    requires t.phase.Serving? && t.phase.open.Some? && t.OnDisk()
    ensures t.disk == h.disk[path := t.phase.open.value.file.data]
  {}

  lemma FromNothing(bs: seq<byte>)
    ensures |bs| <= OFFSET_MAX ==> File([], 0, true).CanWrite(bs)
    ensures |bs| <= OFFSET_MAX ==> File([], 0, true).AfterWrite(bs) == File(bs, |bs|, true)
  {}

  lemma ClosedServed(h: Host.State, sent: seq<byte>)
    requires Host.Serve(h, sent).rest == []
    requires var p := Host.Serve(h, sent).state.phase; p.Serving? && p.attempted
    ensures var s := Host.Serve(h, sent + [Host.CLOSE]);
      && s.rest == [] && s.state.phase == Host.Ended(false) && s.state.disk == Host.Serve(h, sent).state.disk
  {
    hide Host.Serve;
    Host.ServeOneMore(h, sent, [Host.CLOSE]);
  }

  /** A driver that opens a name for reading finds there what the disk holds, from the first byte on, and
      whatever it then asks for leaves the disk as it was. */
  lemma SessionReads(h: Host.State, v: byte, name: Host.Name, n: nat, rest: seq<byte>)
    requires Waiting(h) && h.cfg.Faultless() && 1 <= v <= h.cfg.MaxVersion() && |name| < TWO32 && n < TWO31
    requires h.cfg.resolve(name).Some? && h.cfg.resolve(name).value in h.disk
    ensures var open := [v] + OpenRequest(Host.MODE_READ, name);
      var data := h.disk[h.cfg.resolve(name).value];
      var bs := data[..Least(n, |data|)];
      && Answers(h, open, ReadRequest(n), Put32(|bs|) + bs)
      && Host.Serve(h, open + rest).state.disk == h.disk
  {
    var open := [v] + OpenRequest(Host.MODE_READ, name);
    OpenServed(h, v, Host.MODE_READ, name);
    OpenedOnDisk(h, v, Host.MODE_READ, name);
    AskRead(h, open, Opened(h, Host.MODE_READ, name).value, n);
    Host.SessionOnlyAt(Host.Serve(h, open).state, rest);
    hide Host.Serve, OpenRequest;
    ServedOn(h, open, rest);
  }
}
