/** Opening sessions: the version preamble on both sides, and the operations that need v2. */
module Dial {
  import opened Basics
  import opened Wire
  import opened LocalFile
  import opened Channel
  import opened Client
  import Host

  function OpenRequest(mode: byte, name: Host.Name): seq<byte>
    requires |name| < TWO32
  {
    [Host.OPEN, mode] + Put32(|name|) + name
  }

  /** A request that carries one name, or two. */
  function Named(name: Host.Name): seq<byte>
    requires |name| < TWO32
  {
    Put32(|name|) + name
  }

  // ---- the honest host ------------------------------------------------------

  /** A host no one has spoken to yet. */
  ghost predicate Waiting(h: Host.State) {
    h.phase.Preamble? && (forall p <- h.disk :: |h.disk[p]| <= OFFSET_MAX)
  }

  /** The file an Open obtains, if it does. */
  function Opened(h: Host.State, mode: byte, name: Host.Name): Option<File> {
    match h.cfg.resolve(name)
    case None => None
    case Some(path) =>
      if mode == Host.MODE_READ && path in h.disk then Some(File(h.disk[path], 0, false))
      else if mode == Host.MODE_WRITE && h.cfg.creatable(path) then Some(File([], 0, true))
      else None
  }

  /** The host's half of the preamble: it answers exactly when the engine will wait for an
      answer, so the two sides agree where the first frame begins. */
  lemma PreambleServed(h: Host.State, v: byte)
    requires Waiting(h)
    ensures var s := Host.Serve(h, [v]);
      && s.rest == []
      && (if 1 <= v <= h.cfg.MaxVersion()
          then s.output == (if v >= Host.NEGOTIATED then [v] else [])
               && s.state == h.(phase := Host.Serving(v, false, None))
          else s.output == [] && s.state == h.End(true))
  {
    assert [v][..1] == [v] && [v][1..] == [];
    var served := Host.ServePreamble(h, v);
    assert Host.Serve(served.next, []) == Host.Session(served.next, [], []);
  }

  lemma Middle(a: seq<byte>, b: seq<byte>, c: seq<byte>)
    ensures (a + b + c)[|a|..|a| + |b|] == b
  {}

  lemma NameInside(front: seq<byte>, name: Host.Name, rest: seq<byte>)
    requires |name| < TWO32
    ensures Host.NameEnd(front + Named(name) + rest, |front|) == Some(|front| + 4 + |name|)
    ensures Host.NameAt(front + Named(name) + rest, |front|) == name
  {
    var frame, length := front + Named(name) + rest, Put32(|name|);
    Middle(front, length, name + rest);
    Middle(front + length, name, rest);
    assert frame == front + length + (name + rest) == front + length + name + rest;
  }

  lemma OpenFrameServed(h: Host.State, v: byte, mode: byte, name: Host.Name)
    requires |name| < TWO32
    ensures var (s, request) := (h.(phase := Host.Serving(v, false, None)), OpenRequest(mode, name));
      && Host.FrameLength(s.phase, request) == Some(|request|)
      && var served := Host.ServeFrame(s, request);
        && served.reply == [if Opened(h, mode, name).Some? then 0 else 1]
        && served.next.cfg == h.cfg
        && (Opened(h, mode, name).Some? ==>
              && served.next.phase.Serving? && served.next.phase.attempted && served.next.phase.open.Some?
              && served.next.phase.open.value.file == Opened(h, mode, name).value
              && h.cfg.resolve(name) == Some(served.next.phase.open.value.path)
              && served.next.disk ==
                   if mode == Host.MODE_WRITE then h.disk[served.next.phase.open.value.path := []] else h.disk)
  {
    NameInside([Host.OPEN, mode], name, []);
    hide Host.NameEnd, Host.NameAt;
    assert [Host.OPEN, mode] + Named(name) + [] == OpenRequest(mode, name);
  }

  lemma OpenServed(h: Host.State, v: byte, mode: byte, name: Host.Name)
    requires Waiting(h) && h.cfg.Faultless() && 1 <= v <= h.cfg.MaxVersion() && |name| < TWO32
    ensures Answers(h, [v], OpenRequest(mode, name), [if Opened(h, mode, name).Some? then 0 else 1])
    ensures Opened(h, mode, name).Some? ==> Holds(h, [v] + OpenRequest(mode, name), Opened(h, mode, name).value)
  {
    PreambleServed(h, v);
    OpenFrameServed(h, v, mode, name);
    hide Host.Serve, Host.FrameLength, Host.ServeFrame, Host.ServeOpen, OpenRequest, Opened;
    Host.ServeOneMore(h, [v], OpenRequest(mode, name));
  }

  /** The payload of a session-level frame: one name, or two. */
  function Names(a: Host.Name, b: Option<Host.Name>): seq<byte>
    requires |a| < TWO32 && (b.Some? ==> |b.value| < TWO32)
  {
    if b.Some? then Named(a) + Named(b.value) else Named(a)
  }

  predicate Movable(h: Host.State, src: Host.Name, dst: Host.Name) {
    var (s, d) := (h.cfg.resolve(src), h.cfg.resolve(dst));
    s.Some? && d.Some? && s.value in h.disk && h.cfg.creatable(d.value)
  }

  /** A move takes the bytes from one name to the other and touches nothing else. */
  function Moved(h: Host.State, src: Host.Name, dst: Host.Name): map<Host.Path, seq<byte>>
    requires Movable(h, src, dst)
  {
    var (s, d) := (h.cfg.resolve(src).value, h.cfg.resolve(dst).value);
    map p | p in h.disk.Keys + {d} && (p != s || p == d) :: if p == d then h.disk[s] else h.disk[p]
  }

  lemma MoveMoves(h: Host.State, src: Host.Name, dst: Host.Name)
    requires Movable(h, src, dst)
    ensures var (s, d, m) := (h.cfg.resolve(src).value, h.cfg.resolve(dst).value, Moved(h, src, dst));
      && d in m && m[d] == h.disk[s] && (s in m <==> s == d)
      && forall p :: p != s && p != d ==> (p in m <==> p in h.disk) && (p in m ==> m[p] == h.disk[p])
  {}

  /** A present file is answered with its size, an absent one with none; a refused name with one byte. */
  lemma ExistsTells(h: Host.State, name: Host.Name)
    ensures var r := Host.ServeExists(h, name);
      && (|r.reply| == 9 <==> h.cfg.resolve(name).Some?) && (r.next.phase.Ended? && r.next.disk == h.disk)
      && (h.cfg.resolve(name).Some? ==>
            var path := h.cfg.resolve(name).value;
            && (r.reply[0] == 0 <==> path in h.disk) && !r.next.phase.failed
            && (path in h.disk && |h.disk[path]| < TWO64 ==> Get(r.reply[1..]) == |h.disk[path]|))
  {
    match h.cfg.resolve(name)
    case None =>
    case Some(path) =>
      Widths();
      if path in h.disk && |h.disk[path]| < TWO64 {
        GetPut(8, |h.disk[path]|);
        assert ([0] + Put(8, |h.disk[path]|))[1..] == Put(8, |h.disk[path]|);
      }
  }

  lemma ExistsServed(h: Host.State, name: Host.Name)
    requires Waiting(h) && h.cfg.MaxVersion() >= Host.NEGOTIATED && |name| < TWO32
    ensures Honest(h).Output([Host.VERSION]) == [Host.VERSION]
    ensures Answers(h, [Host.VERSION], [Host.EXISTS] + Named(name), Host.ServeExists(h, name).reply)
  {
    PreambleServed(h, Host.VERSION);
    NameInside([Host.EXISTS], name, []);
    var frame := [Host.EXISTS] + Named(name);
    assert frame + [] == frame;
    hide Host.Serve, Named;
    Host.ServeOneMore(h, [Host.VERSION], frame);
  }

  lemma MoveFrame(src: Host.Name, dst: Host.Name)
    requires |src| < TWO32 && |dst| < TWO32
    ensures var (frame, at) := ([Host.MOVE] + Named(src) + Named(dst), 5 + |src|);
      && Host.NameEnd(frame, 1) == Some(at) && Host.NameAt(frame, 1) == src
      && Host.NameEnd(frame, at) == Some(|frame|) && Host.NameAt(frame, at) == dst
  {
    NameInside([Host.MOVE], src, Named(dst));
    NameInside([Host.MOVE] + Named(src), dst, []);
    hide Named, Host.NameEnd, Host.NameAt;
    var frame := [Host.MOVE] + Named(src) + Named(dst);
    assert frame + [] == frame;
  }

  lemma MoveFrameServed(s: Host.State, src: Host.Name, dst: Host.Name)
    requires s.phase == Host.Serving(Host.VERSION, false, None) && |src| < TWO32 && |dst| < TWO32
    ensures var frame := [Host.MOVE] + Named(src) + Named(dst);
      && Host.FrameLength(s.phase, frame) == Some(|frame|)
      && Host.ServeFrame(s, frame) == Host.ServeMove(s, src, dst)
  {
    MoveFrame(src, dst);
    hide Named, Host.NameEnd, Host.NameAt, Host.ServeMove;
  }

  lemma MovedDisk(h: Host.State, src: Host.Name, dst: Host.Name)
    requires Movable(h, src, dst)
    ensures Host.ServeMove(h, src, dst).next.disk == Moved(h, src, dst)
  {}

  lemma MoveServed(h: Host.State, src: Host.Name, dst: Host.Name)
    requires Waiting(h) && h.cfg.MaxVersion() >= Host.NEGOTIATED && |src| < TWO32 && |dst| < TWO32
    ensures Honest(h).Output([Host.VERSION]) == [Host.VERSION]
    ensures Answers(h, [Host.VERSION], [Host.MOVE] + Named(src) + Named(dst), [if Movable(h, src, dst) then 0 else 1])
    ensures Movable(h, src, dst) ==>
      Host.Serve(h, [Host.VERSION] + ([Host.MOVE] + Named(src) + Named(dst))).state.disk == Moved(h, src, dst)
  {
    PreambleServed(h, Host.VERSION);
    hide Host.Serve, Named, Host.FrameLength, Host.ServeFrame, Moved;
    var s := Host.Serve(h, [Host.VERSION]).state;
    MoveFrameServed(s, src, dst);
    if Movable(s, src, dst) {
      MovedDisk(s, src, dst);
    }
    Host.ServeOneMore(h, [Host.VERSION], [Host.MOVE] + Named(src) + Named(dst));
  }

  datatype Presence = Present | Absent | NoAnswer

  // ---- the engine -------------------------------------------------------------

  /** The version a dial announcing v settles on with an honest host. */
  function Settled(h: Host.State, v: byte): byte {
    if v <= h.cfg.MaxVersion() then v else Host.VERSION_MIN
  }

  /** Whether a peer answers a session's preamble at all, and with which byte. */
  predicate Responds(p: Peer) {
    |p.Output([Host.VERSION])| > 0
  }

  function Spoken(p: Peer): byte
    requires Responds(p)
  {
    p.Output([Host.VERSION])[0]
  }

  /** A session takes an answer from v2 up. */
  predicate Taken(p: Peer) {
    Responds(p) && Spoken(p) >= Host.NEGOTIATED
  }

  /** The version a job believes after a session whose answer, if there was one, arrived. */
  function AfterSession(p: Peer, before: byte): byte {
    if Taken(p) then Spoken(p) else before
  }

  /** Unlike a dial, a session does not look whether the answer is above what it announced: the
      version stays between 1 and the announced one exactly when the answer does not exceed that. */
  lemma SessionVersionInRange(p: Peer, before: byte)
    requires 1 <= before <= Host.VERSION
    ensures 1 <= AfterSession(p, before) <= Host.VERSION <==> !Responds(p) || Spoken(p) <= Host.VERSION
  {}

  /** A peer that answers 3 to an announced 2 is taken at its word. */
  lemma SessionBelievesThree(before: byte)
    ensures AfterSession(Arbitrary(_ => [3]), before) == 3 > Host.VERSION
  {}

  datatype Heard = Agreed(version: byte) | Unanswered | Rejected

  /** The part of the engine that makes connections. `peers(k)` is whoever answers the k-th
      attempt, if anyone does. */
  class Dialler {
    const peers: nat -> Option<Peer>
    const calls: Calls
    var announce: byte   // what a new connection offers
    var dials: nat

    constructor (peers: nat -> Option<Peer>)
      ensures this.peers == peers && announce == Host.VERSION && dials == 0 && fresh(calls)
    {
      this.peers := peers;
      calls := new Calls(Host.VERSION);
      announce, dials := Host.VERSION, 0;
    }

    /** A faultless host h stands ready to answer attempt k, and the fallback if there may be one. */
    ghost predicate Answering(h: Host.State, k: nat, offered: byte) {
      && Waiting(h) && h.cfg.Faultless() && peers(k) == Some(Honest(h))
      && (offered >= Host.NEGOTIATED ==> peers(k + 1) == Some(Honest(h)))
    }

    /** The next attempt, if it connects. */
    method Connect() returns (ch: Connection?)
      modifies `dials
      ensures dials == old(dials) + 1
      ensures ch == null <==> peers(old(dials)).None?
      ensures ch != null ==>
        fresh(ch) && Some(ch.peer) == peers(old(dials)) && ch.sent == [] && ch.got == 0 && !ch.down
    {
      var p := peers(dials);
      dials := dials + 1;
      if p.None? {
        return null;
      }
      ch := new Connection(p.value);
    }

    /** The preamble: announce, and from v2 hear what the host will speak. */
    method Preamble(ch: Connection, offered: byte, ghost h: Host.State) returns (heard: Heard)
      requires ch.sent == [] && ch.got == 0 && !ch.down && 1 <= offered
      modifies ch`sent, ch`got
      ensures heard.Agreed? ==>
        && 1 <= heard.version <= offered && ch.sent == [offered]
        && ch.got == (if offered >= Host.NEGOTIATED then 1 else 0)
      ensures heard == Unanswered ==> offered >= Host.NEGOTIATED
      ensures ch.peer == Honest(h) && Waiting(h) ==>
        heard == if offered <= h.cfg.MaxVersion() then Agreed(offered) else Unanswered
    {
      if ch.peer == Honest(h) && Waiting(h) {
        PreambleServed(h, offered);
      }
      hide Host.Serve, Host.Config.MaxVersion;
      assert ch.sent + [offered] == [offered];
      var ok := ch.WriteFull([offered]);
      if !ok { return Rejected; }
      if offered < Host.NEGOTIATED { return Agreed(offered); }
      var b := new byte[1];
      ok := ch.ReadFull(b, 1);
      if !ok { return Unanswered; }
      assert b[..1][0] == b[0];
      if b[0] < Host.VERSION_MIN || b[0] > offered { return Rejected; }
      heard := Agreed(b[0]);
    }

    /** The tag, the mode and the name's length. */
    method OpenHeader(mode: byte, n: nat) returns (hdr: array<byte>)
      requires n < TWO32
      ensures fresh(hdr) && hdr[..] == [Host.OPEN, mode] + Put32(n)
    {
      hdr := new byte[6];
      hdr[0], hdr[1] := Host.OPEN, mode;
      PutInto(hdr, 2, 4, n);
      assert hdr[..2] == [Host.OPEN, mode];
    }

    /** Name the file. */
    method SendOpen(ch: Connection, mode: byte, name: Host.Name) returns (ok: bool)
      requires |name| < TWO32
      modifies ch`sent
      ensures ok ==> ch.sent == old(ch.sent) + OpenRequest(mode, name)
      ensures old(ch.Reliable()) ==> ok
    {
      var hdr := OpenHeader(mode, |name|);
      assert ch.sent + hdr[..] + name == ch.sent + OpenRequest(mode, name);
      ok := ch.WriteFull(hdr[..]);
      if ok {
        ok := ch.WriteFull(name);
      }
    }

    /** Take a one-byte status; only zero is success. */
    method TakeStatus(ch: Connection) returns (ok: bool)
      modifies ch`got
      ensures ok ==> ch.got == old(ch.got) + 1 && |old(ch.Pending())| > 0 && old(ch.Pending())[0] == 0
      ensures old(ch.Reliable() && |ch.Pending()| > 0 && ch.Pending()[0] == 0) ==> ok
    {
      hide Connection.Pending;
      var st := new byte[1];
      ok := ch.ReadFull(st, 1);
      assert st[..1][0] == st[0];
      ok := ok && st[0] == 0;
    }

    /** The Open frame of a dial, after its preamble at version v. */
    method OpenOn(ch: Connection, mode: byte, name: Host.Name, v: byte, ghost h: Host.State) returns (ok: bool)
      requires !ch.down && ch.sent == [v] && ch.got == (if v >= Host.NEGOTIATED then 1 else 0) && |name| < TWO32
      modifies ch`sent, ch`got
      ensures ok ==> ch.sent == [v] + OpenRequest(mode, name) && ch.got == old(ch.got) + 1
      ensures ch.peer == Honest(h) && Waiting(h) && h.cfg.Faultless() && 1 <= v <= h.cfg.MaxVersion() ==>
        && (ok <==> Opened(h, mode, name).Some?)
        && (ok ==> Ready(ch, Opened(h, mode, name).value))
    {
      if ch.peer == Honest(h) && Waiting(h) && h.cfg.Faultless() && 1 <= v <= h.cfg.MaxVersion() {
        PreambleServed(h, v);
        OpenServed(h, v, mode, name);
      }
      hide Holds, Host.Serve, OpenRequest, Opened;
      ok := SendOpen(ch, mode, name);
      if ok {
        ok := TakeStatus(ch);
      }
    }

    /** afio_dial_at: a host that does not answer a negotiated preamble is tried once more as v1,
        and the job remembers. */
    method DialAt(mode: byte, name: Host.Name, offered: byte, ghost h: Host.State) returns (ch: Connection?)
      requires 1 <= offered && |name| < TWO32
      modifies this`announce, this`dials, calls
      // what is announced never rises; a second dial is the only way it falls, and it falls to 1
      ensures (announce == offered && dials == old(dials) + 1)
           || (announce == Host.VERSION_MIN < offered && dials == old(dials) + 2)
      // an open session stands on a frame boundary at a version between 1 and what was announced
      ensures ch != null ==>
        && fresh(ch) && !ch.down && 1 <= calls.agreed <= announce
        && ch.sent == [announce] + OpenRequest(mode, name)
        && ch.got == (if announce >= Host.NEGOTIATED then 2 else 1)
      // an honest host is understood at the version both speak, and serves the file
      ensures Answering(h, old(dials), offered) ==>
        && announce == Settled(h, offered)
        && (ch != null <==> Opened(h, mode, name).Some?)
        && (ch != null ==> calls.agreed == announce && Ready(ch, Opened(h, mode, name).value))
      decreases offered
    {
      announce := offered;
      ch := Connect();
      if ch == null { return; }
      hide Ready, OpenRequest, Opened;
      var heard := Preamble(ch, offered, h);
      match heard {
        case Rejected => return null;
        case Unanswered =>
          ch := DialAt(mode, name, Host.VERSION_MIN, h);
        case Agreed(version) =>
          calls.agreed := version;
          var ok := OpenOn(ch, mode, name, offered, h);
          if !ok { return null; }
      }
    }

    /** Every open of a job, in order. The announced version only ever falls, and the whole job
        pays at most one dial more than it opens files. */
    method OpenAll(files: seq<(byte, Host.Name)>, ghost h: Host.State)
      requires 1 <= announce && forall f <- files :: |f.1| < TWO32
      modifies this`announce, this`dials, calls
      ensures 1 <= announce <= old(announce)
      ensures dials == old(dials) + |files| + (if announce < old(announce) then 1 else 0)
    {
      for i := 0 to |files|
        invariant 1 <= announce <= old(announce)
        invariant announce < old(announce) ==> announce == Host.VERSION_MIN
        invariant dials == old(dials) + i + (if announce < old(announce) then 1 else 0)
      {
        var _ := DialAt(files[i].0, files[i].1, announce, h);
      }
    }

    /** A length-prefixed name, in the two writes the engine makes of it. */
    method SendName(ch: Connection, name: Host.Name) returns (ok: bool)
      requires |name| < TWO32
      modifies ch`sent
      ensures ok ==> ch.sent == old(ch.sent) + Named(name)
      ensures old(ch.Reliable()) ==> ok
    {
      var len := new byte[4];
      PutInto(len, 0, 4, |name|);
      assert ch.sent + len[..] + name == ch.sent + Named(name);
      ok := ch.WriteFull(len[..]);
      if ok {
        ok := ch.WriteFull(name);
      }
    }

    method SendFrame(ch: Connection, frame: byte, a: Host.Name, b: Option<Host.Name>) returns (ok: bool)
      requires |a| < TWO32 && (b.Some? ==> |b.value| < TWO32)
      modifies ch`sent
      ensures ok ==> ch.sent == old(ch.sent) + ([frame] + Names(a, b))
      ensures old(ch.Reliable()) ==> ok
    {
      hide Named;
      assert ch.sent + [frame] + Named(a) == ch.sent + ([frame] + Named(a));
      ok := ch.WriteFull([frame]);
      if !ok { return; }
      ok := SendName(ch, a);
      if !ok || b.None? { return; }
      assert ch.sent + Named(b.value) == old(ch.sent) + ([frame] + (Named(a) + Named(b.value)));
      ok := SendName(ch, b.value);
    }

    /** The preamble of a session: only an answer from v2 up will do, and any such answer that arrives
        does. */
    method SessionPreamble(ch: Connection, ghost h: Host.State) returns (ok: bool)
      requires ch.sent == [] && ch.got == 0 && !ch.down
      modifies ch`sent, ch`got, calls
      ensures |ch.sent| <= 1
      ensures ok <==> ch.got == 1 && Taken(ch.peer)
      ensures ok ==> ch.sent == [Host.VERSION]
      ensures calls.agreed == if ok then Spoken(ch.peer) else old(calls.agreed)
      ensures ch.peer == Honest(h) && Waiting(h) ==>
        (ok <==> h.cfg.MaxVersion() >= Host.NEGOTIATED) && (ok ==> calls.agreed == Host.VERSION)
    {
      if ch.peer == Honest(h) && Waiting(h) {
        PreambleServed(h, Host.VERSION);
      }
      hide Host.Serve, Host.Config.MaxVersion;
      assert ch.sent + [Host.VERSION] == [Host.VERSION];
      ok := ch.WriteFull([Host.VERSION]);
      if !ok { return; }
      var agreed := new byte[1];
      ok := ch.ReadFull(agreed, 1);
      if !ok { return; }
      assert agreed[..1][0] == agreed[0];
      if agreed[0] < Host.NEGOTIATED { return false; }
      calls.agreed := agreed[0];
    }

    /** afio_session: a Move or Exists on a connection of its own, always offered as v2. Its frame
        goes out only once a version from v2 up was answered. */
    method Session(frame: byte, a: Host.Name, b: Option<Host.Name>, ghost h: Host.State)
      returns (ok: bool, ch: Connection?)
      requires |a| < TWO32 && (b.Some? ==> |b.value| < TWO32)
      modifies this`dials, calls
      ensures dials == old(dials) + 1
      ensures ch != null ==>
        && fresh(ch) && Some(ch.peer) == peers(old(dials))
        && (|ch.sent| > 1 ==> ch.got == 1 && calls.agreed >= Host.NEGOTIATED)
      ensures ok ==> ch != null && !ch.down && ch.got == 1 && ch.sent == [Host.VERSION] + ([frame] + Names(a, b))
      ensures peers(old(dials)) == Some(Honest(h)) && Waiting(h) ==>
        && (ok <==> h.cfg.MaxVersion() >= Host.NEGOTIATED)
        && (ok ==> calls.agreed == Host.VERSION)
      // whoever answers: an answer from v2 up is what the job believes from then on, however large
      ensures calls.agreed ==
        if ch != null && ch.got == 1 then AfterSession(ch.peer, old(calls.agreed)) else old(calls.agreed)
    {
      ch := Connect();
      if ch == null { return false, null; }
      ok := SessionPreamble(ch, h);
      if !ok { return; }
      ok := SendFrame(ch, frame, a, b);
    }

    /** afmpeg_url_check. An answer counts only when all nine bytes arrive, so the stray zero a host
        sends for a refused name is never taken for "present". */
    method Check(name: Host.Name, ghost h: Host.State) returns (r: Presence)
      requires |name| < TWO32
      modifies this`dials, calls
      ensures peers(old(dials)) == Some(Honest(h)) && Waiting(h) ==>
        r == if h.cfg.MaxVersion() < Host.NEGOTIATED || h.cfg.resolve(name).None? then NoAnswer
             else if h.cfg.resolve(name).value in h.disk then Present else Absent
    {
      var ok, ch := Session(Host.EXISTS, name, None, h);
      if !ok { return NoAnswer; }
      if ch.peer == Honest(h) && Waiting(h) {
        ExistsServed(h, name);
      }
      hide Host.Serve, Named, Peer.Output, Peer.Unread;
      var reply := new byte[9];
      ok := ch.ReadFull(reply, 9);
      if !ok { return NoAnswer; }
      assert reply[..9][0] == reply[0];
      r := if reply[0] != 0 then Absent else Present;
    }

    /** afmpeg_url_move. */
    method Move(src: Host.Name, dst: Host.Name, ghost h: Host.State) returns (ok: bool, ghost used: Connection?)
      requires |src| < TWO32 && |dst| < TWO32
      modifies this`dials, calls
      ensures peers(old(dials)) == Some(Honest(h)) && Waiting(h) ==>
        && (ok <==> h.cfg.MaxVersion() >= Host.NEGOTIATED && Movable(h, src, dst))
        && (ok ==> used != null && Host.Serve(h, used.sent).state.disk == Moved(h, src, dst))
    {
      var ch;
      ok, ch := Session(Host.MOVE, src, Some(dst), h);
      used := ch;
      if !ok { return; }
      if ch.peer == Honest(h) && Waiting(h) && h.cfg.MaxVersion() >= Host.NEGOTIATED {
        MoveServed(h, src, dst);
        assert [Host.MOVE] + Named(src) + Named(dst) == [Host.MOVE] + Names(src, Some(dst));
      }
      hide Host.Serve, Named, Peer.Output, Peer.Unread;
      ok := TakeStatus(ch);
    }
  }
}
