/** The engine side of the bridge, file calls: what libav reads, writes and seeks through. */
module Client {
  import opened Basics
  import opened Wire
  import opened LocalFile
  import opened Channel
  import Host

  const TWO31: int := 0x8000_0000

  const AVSEEK_SIZE: nat := 0x1_0000
  const AVSEEK_FORCE: nat := 0x2_0000

  // AVERROR(EIO) is Failed, AVERROR_EOF is Eof.
  datatype ReadResult = Failed | Eof | Got(n: nat)
  datatype WriteResult = NotWritten | Wrote(n: nat)
  datatype SeekResult = NotMoved | At(pos: int)

  // One call of any kind, and its result.
  datatype Request = ReadUpTo(size: nat) | WriteAll(bs: seq<byte>) | SeekTo(offset: int, whence: nat) {
    predicate Valid() {
      match this
      case ReadUpTo(size) => size < TWO31
      case WriteAll(bs) => |bs| < TWO31
      case SeekTo(offset, _) => -TWO64 / 2 <= offset < TWO64 / 2
    }
  }

  datatype Answer = Error | EndOfFile | Bytes(bs: seq<byte>) | Count(n: nat) | Position(pos: int)

  /** What the same call answers on a local file. */
  function LocalAnswer(f: File, q: Request): Answer {
    match q
    case ReadUpTo(size) => if f.Readable(size) == [] then EndOfFile else Bytes(f.Readable(size))
    case WriteAll(bs) => if f.CanWrite(bs) then Count(|bs|) else Error
    case SeekTo(offset, whence) =>
      if whence == AVSEEK_SIZE then Position(|f.data|)
      else if f.CanSeek(offset, WhenceByte(whence)) then Position(f.Target(offset, WhenceByte(whence)))
      else Error
  }

  function LocalNext(f: File, q: Request): File {
    match q
    case ReadUpTo(size) => f.AfterRead(size)
    case WriteAll(bs) => if f.CanWrite(bs) then f.AfterWrite(bs) else f
    case SeekTo(offset, whence) =>
      if whence == AVSEEK_SIZE || !f.CanSeek(offset, WhenceByte(whence)) then f
      else f.AfterSeek(offset, WhenceByte(whence))
  }

  /** The calls on a local file, up to the first the file refuses; the bridge gives up there. */
  function LocalRun(f: File, qs: seq<Request>): (answers: seq<Answer>)
    ensures |answers| == |qs|
    decreases |qs|
  {
    if qs == [] then []
    else if LocalAnswer(f, qs[0]) == Error then seq(|qs|, _ => Error)
    else [LocalAnswer(f, qs[0])] + LocalRun(LocalNext(f, qs[0]), qs[1..])
  }

  /** The file after calls it all accepted. */
  function LocalEnd(f: File, qs: seq<Request>): File
    decreases |qs|
  {
    if qs == [] then f else LocalEnd(LocalNext(f, qs[0]), qs[1..])
  }

  function ReadRequest(size: nat): seq<byte>
    requires size < TWO31
  {
    [Host.READ] + Put32(size)
  }

  function WriteRequest(bs: seq<byte>): seq<byte>
    requires |bs| < TWO31
  {
    [Host.WRITE] + Put32(|bs|) + bs
  }

  function SeekRequest(offset: int, whence: byte): seq<byte>
    requires -TWO64 / 2 <= offset < TWO64 / 2
  {
    [Host.SEEK] + Put64(offset) + [whence]
  }

  /** whence & ~AVSEEK_FORCE, as the one byte the frame has room for. */
  function WhenceByte(whence: nat): byte {
    (if (whence / AVSEEK_FORCE) % 2 == 1 then whence - AVSEEK_FORCE else whence) % 256
  }

  /** How the engine takes a read reply, whoever wrote it: the result, and the bytes it uses up. */
  function TakeRead(agreed: byte, size: nat, reply: seq<byte>): ReadResult {
    if |reply| < 4 then Failed
    else
      var n := Get(reply[..4]);
      if agreed >= Host.NEGOTIATED && n >= TWO31 then Failed
      else if n == 0 then Eof
      else if n > size || |reply| < 4 + n then Failed
      else Got(n)
  }

  /** Whoever wrote the reply, only bytes that are there and fit are taken, as many as the count says and at least
      one; a reply that stops short of them is a failure, and no version takes more than another. */
  lemma ReadTakesOnlyWhatFits(agreed: byte, size: nat, reply: seq<byte>)
    ensures var r := TakeRead(agreed, size, reply);
      && (r.Got? ==> 0 < r.n <= size && |reply| >= 4 + r.n && reply[..4] == Put(4, r.n))
      && (r == Eof <==> |reply| >= 4 && reply[..4] == [0, 0, 0, 0])
      && (size < TWO31 ==> r == TakeRead(Host.VERSION_MIN, size, reply))
      && (r.Got? ==> forall n :: 0 <= n < 4 + r.n ==> TakeRead(agreed, size, reply[..n]) == Failed)
  {
    if |reply| >= 4 {
      PutGet(reply[..4]);
      Widths();
      GetPut(4, 0);
      assert Put(4, 0) == [0, 0, 0, 0];
      assert forall n :: 4 <= n <= |reply| ==> reply[..n][..4] == reply[..4];
    }
  }

  /** The force flag changes nothing, and the plain directions are sent as they are. */
  lemma ForceIsMasked(whence: nat)
    ensures whence < AVSEEK_FORCE ==> WhenceByte(whence + AVSEEK_FORCE) == WhenceByte(whence)
    ensures whence <= 2 ==> WhenceByte(whence) == whence
  {}

  /** Every fault a host can inject into a read is seen as one: a count of bytes that never come, and the
      count of -1. */
  lemma FaultyReadFails(s: Host.State, o: Host.OpenFile, size: nat, agreed: byte)
    requires s.phase.Serving? && s.cfg.closeAfterReads == 0 && agreed == s.phase.agreed
    requires !(s.cfg.failReadsAfter > 0 && s.readCount >= s.cfg.failReadsAfter) ==>
      0 < s.cfg.overstateReadBy < TWO31 - size
    ensures TakeRead(agreed, size, Host.ServeRead(s, o, size).reply) == Failed
  {
    Widths();
    GetPut(4, TWO32 - 1);
    var bs := o.file.Readable(size);
    if !(s.cfg.failReadsAfter > 0 && s.readCount >= s.cfg.failReadsAfter) {
      var head := Put(4, |bs| + s.cfg.overstateReadBy);
      GetPut(4, |bs| + s.cfg.overstateReadBy);
      assert (head + bs)[..4] == head;
    }
  }

  /** And an understated acknowledgement is not the one a write asks for, although the bytes are there. */
  lemma UnderstatedWriteFails(s: Host.State, o: Host.OpenFile, bs: seq<byte>)
    requires s.phase.Serving? && s.cfg.understateWriteBy > 0 && bs != [] && |bs| < TWO31 && o.file.CanWrite(bs)
    ensures var served := Host.ServeWrite(s, o, bs);
      && |served.reply| == 4 && Get(served.reply) != |bs|
      && o.path in served.next.disk && served.next.disk[o.path] == o.file.AfterWrite(bs).data
      && Get(served.reply) == if |bs| > s.cfg.understateWriteBy then |bs| - s.cfg.understateWriteBy else 0
  {
    var ack := if |bs| > s.cfg.understateWriteBy then |bs| - s.cfg.understateWriteBy else 0;
    Widths();
    GetPut(4, ack);
  }

  // ---- the honest host ------------------------------------------------------

  /** After `sent`, a faultless host has answered everything and holds file f open. */
  ghost predicate Holds(start: Host.State, sent: seq<byte>, f: File) {
    var s := Host.Serve(start, sent);
    && s.rest == [] && s.state.cfg.Faultless()
    && s.state.phase.Serving? && s.state.phase.attempted && s.state.phase.open.Some?
    && s.state.phase.open.value.file == f && f.Valid() && s.state.OnDisk()
  }

  /** The connection carries an opened file of an honest host and every answer has been taken:
      both directions are empty. */
  ghost predicate Ready(ch: Connection, f: File)
    reads ch
  {
    ch.Reliable() && Holds(ch.peer.start, ch.sent, f) && ch.got == |ch.peer.Output(ch.sent)|
  }

  /** One request to such a host adds exactly its reply. */
  ghost predicate Answers(start: Host.State, sent: seq<byte>, request: seq<byte>, reply: seq<byte>) {
    var peer := Honest(start);
    && |peer.Output(sent + request)| == |peer.Output(sent)| + |reply|
    && peer.Unread(sent + request, |peer.Output(sent)|) == reply
  }

  lemma Ask(start: Host.State, sent: seq<byte>, f: File, request: seq<byte>)
    requires Holds(start, sent, f)
    requires Host.FrameLength(Host.Serve(start, sent).state.phase, request) == Some(|request|)
    ensures var served := Host.ServeFrame(Host.Serve(start, sent).state, request);
      && Answers(start, sent, request, served.reply)
      && Host.Serve(start, sent + request).state == served.next && Host.Serve(start, sent + request).rest == []
  {
    Host.ServeOneMore(start, sent, request);
  }

  lemma ReadFrame(s: Host.State, size: nat)
    requires s.phase.Serving? && s.phase.open.Some? && size < TWO31
    ensures Host.FrameLength(s.phase, ReadRequest(size)) == Some(|ReadRequest(size)|)
    ensures Host.ServeFrame(s, ReadRequest(size)) == Host.ServeRead(s, s.phase.open.value, size)
  {
    hide Host.ServeRead;
    assert ReadRequest(size)[1..5] == Put32(size);
  }

  lemma AskRead(start: Host.State, sent: seq<byte>, f: File, size: nat)
    requires Holds(start, sent, f) && size < TWO31
    ensures Answers(start, sent, ReadRequest(size), Put32(|f.Readable(size)|) + f.Readable(size))
    ensures Holds(start, sent + ReadRequest(size), f.AfterRead(size))
  {
    hide Host.Serve, Host.ServeFrame, Host.FrameLength, Answers, ReadRequest;
    ReadFrame(Host.Serve(start, sent).state, size);
    Ask(start, sent, f, ReadRequest(size));
  }

  lemma WriteFrame(s: Host.State, bs: seq<byte>)
    requires s.phase.Serving? && s.phase.open.Some? && |bs| < TWO31
    ensures Host.FrameLength(s.phase, WriteRequest(bs)) == Some(|WriteRequest(bs)|)
    ensures Host.ServeFrame(s, WriteRequest(bs)) == Host.ServeWrite(s, s.phase.open.value, bs)
  {
    var frame := WriteRequest(bs);
    assert frame[1..5] == Put32(|bs|);
    assert Host.NameEnd(frame, 1) == Some(|frame|);
    assert Host.NameAt(frame, 1) == bs;
  }

  lemma AskWrite(start: Host.State, sent: seq<byte>, f: File, bs: seq<byte>)
    requires Holds(start, sent, f) && |bs| < TWO31
    ensures Answers(start, sent, WriteRequest(bs), if f.CanWrite(bs) then Put32(|bs|) else [])
    ensures f.CanWrite(bs) ==> Holds(start, sent + WriteRequest(bs), f.AfterWrite(bs))
  {
    hide Host.Serve, Host.ServeFrame, Host.FrameLength, Answers, File.AfterWrite, File.CanWrite, WriteRequest;
    WriteFrame(Host.Serve(start, sent).state, bs);
    Ask(start, sent, f, WriteRequest(bs));
  }

  lemma SeekFrameServed(s: Host.State, offset: int, whence: byte)
    requires s.phase.Serving? && s.phase.open.Some? && -TWO64 / 2 <= offset < TWO64 / 2
    ensures Host.FrameLength(s.phase, SeekRequest(offset, whence)) == Some(|SeekRequest(offset, whence)|)
    ensures Host.ServeFrame(s, SeekRequest(offset, whence)) == Host.ServeSeek(s, s.phase.open.value, offset, whence)
  {
    hide Host.ServeSeek;
    var request := SeekRequest(offset, whence);
    assert request[1..9] == Put64(offset) && request[9] == whence;
  }

  lemma AskSeek(start: Host.State, sent: seq<byte>, f: File, offset: int, whence: byte)
    requires Holds(start, sent, f) && -TWO64 / 2 <= offset < TWO64 / 2
    ensures Answers(start, sent, SeekRequest(offset, whence),
                    if f.CanSeek(offset, whence) then Put64(f.Target(offset, whence)) else [])
    ensures f.CanSeek(offset, whence) ==> Holds(start, sent + SeekRequest(offset, whence), f.AfterSeek(offset, whence))
  {
    hide Host.Serve, Host.ServeFrame, Host.FrameLength, Answers, SeekRequest;
    SeekFrameServed(Host.Serve(start, sent).state, offset, whence);
    Ask(start, sent, f, SeekRequest(offset, whence));
  }

  lemma AskSize(start: Host.State, sent: seq<byte>, f: File)
    requires Holds(start, sent, f)
    ensures Answers(start, sent, [Host.SIZE], Put64(|f.data|)) && Holds(start, sent + [Host.SIZE], f)
  {
    Ask(start, sent, f, [Host.SIZE]);
  }

  /** A tag and a length. */
  method Header(tag: byte, n: nat) returns (req: seq<byte>)
    requires n < TWO32
    ensures req == [tag] + Put32(n) && req != []
  {
    var b := new byte[5];
    b[0] := tag;
    PutInto(b, 1, 4, n);
    req := b[..];
  }

  method SeekFrame(offset: int, whence: byte) returns (req: seq<byte>)
    requires -TWO64 / 2 <= offset < TWO64 / 2
    ensures req == SeekRequest(offset, whence) && req != []
  {
    var b := new byte[10];
    b[0] := Host.SEEK;
    PutInto(b, 1, 8, if offset < 0 then offset + TWO64 else offset);
    b[9] := whence;
    req := b[..];
  }

  // ---- the calls --------------------------------------------------------------

  /** The engine's file calls. `agreed` is the version of the latest dial, whichever file that
      was for: nothing below depends on it being this connection's. */
  class Calls {
    var agreed: byte

    constructor (agreed: byte)
      ensures this.agreed == agreed
    {
      this.agreed := agreed;
    }

    /** afio_read once its request is out. */
    method TakeReadReply(ch: Connection, buf: array<byte>, size: nat) returns (r: ReadResult)
      requires size <= buf.Length
      modifies ch`got, ch`down, buf
      ensures buf[size..] == old(buf[size..])
      ensures ch.down == (old(ch.down) || r == Failed)
      ensures r != Failed ==>
        && r == TakeRead(agreed, size, old(ch.Pending()))
        && ch.got == old(ch.got) + 4 + (if r.Got? then r.n else 0)
        && (r.Got? ==> buf[..r.n] == old(ch.Pending())[4..4 + r.n])
      ensures old(ch.Reliable()) ==> r == TakeRead(agreed, size, old(ch.Pending()))
    {
      hide Connection.Pending;
      var nb := new byte[4];
      var ok := ch.ReadFull(nb, 4);
      if !ok { ch.ShutDown(); return Failed; }
      var n := GetFrom(nb, 4);
      if agreed >= Host.NEGOTIATED && n >= TWO31 { ch.ShutDown(); return Failed; }
      if n == 0 { return Eof; }
      if n > size { ch.ShutDown(); return Failed; }
      ok := ch.ReadFull(buf, n);
      if !ok { ch.ShutDown(); return Failed; }
      r := Got(n);
    }

    /** afio_read. */
    method Read(ch: Connection, buf: array<byte>, size: nat, ghost f: File) returns (r: ReadResult)
      requires size <= buf.Length && size < TWO31
      modifies ch, buf
      // nothing is stored past the requested size, whoever answers
      ensures buf[size..] == old(buf[size..])
      // a failed call leaves the session dead, and a dead session fails every call unread
      ensures r == Failed ==> ch.down
      ensures old(ch.down) ==> r == Failed && ch.sent == old(ch.sent) && ch.got == old(ch.got)
      // any other result is what the reply says, and takes the reply exactly
      ensures r != Failed ==>
        && !ch.down && ch.sent == old(ch.sent) + ReadRequest(size)
        && var reply := ch.peer.Unread(ch.sent, old(ch.got));
          && r == TakeRead(agreed, size, reply)
          && ch.got == old(ch.got) + 4 + (if r.Got? then r.n else 0)
          && (r.Got? ==> buf[..r.n] == reply[4..4 + r.n])
      // an honest host: exactly the local file
      ensures old(Ready(ch, f)) ==>
        && Ready(ch, f.AfterRead(size))
        && r == (if f.Readable(size) == [] then Eof else Got(|f.Readable(size)|))
        && (r.Got? ==> buf[..r.n] == f.Readable(size))
    {
      if Ready(ch, f) {
        AskRead(ch.peer.start, ch.sent, f, size);
      }
      hide Peer.Output, Peer.Unread, Holds, File.Readable, File.AfterRead;
      var req := Header(Host.READ, size);
      var ok := ch.WriteFull(req);
      if !ok { ch.ShutDown(); return Failed; }
      r := TakeReadReply(ch, buf, size);
    }

    /** afio_write once its request is out: anything but an acknowledgement of every byte fails. */
    method TakeAcknowledgement(ch: Connection, size: nat) returns (r: WriteResult)
      modifies ch`got, ch`down
      ensures ch.down == (old(ch.down) || r == NotWritten)
      ensures r != NotWritten ==>
        && r == Wrote(size) && ch.got == old(ch.got) + 4
        && |old(ch.Pending())| >= 4 && Get(old(ch.Pending())[..4]) == size
      ensures old(ch.Reliable() && |ch.Pending()| >= 4 && Get(ch.Pending()[..4]) == size) ==> r == Wrote(size)
    {
      hide Connection.Pending;
      var nb := new byte[4];
      var ok := ch.ReadFull(nb, 4);
      if !ok { ch.ShutDown(); return NotWritten; }
      var w := GetFrom(nb, 4);
      if w != size { ch.ShutDown(); return NotWritten; }
      r := Wrote(w);
    }

    /** afio_write. */
    method Write(ch: Connection, bs: seq<byte>, ghost f: File) returns (r: WriteResult)
      requires |bs| < TWO31
      modifies ch
      ensures r == NotWritten ==> ch.down
      ensures old(ch.down) ==> r == NotWritten && ch.sent == old(ch.sent) && ch.got == old(ch.got)
      ensures r != NotWritten ==>
        && r == Wrote(|bs|) && !ch.down
        && ch.sent == old(ch.sent) + WriteRequest(bs) && ch.got == old(ch.got) + 4
        && var reply := ch.peer.Unread(ch.sent, old(ch.got)); |reply| >= 4 && Get(reply[..4]) == |bs|
      ensures old(Ready(ch, f)) && f.CanWrite(bs) ==> r == Wrote(|bs|) && Ready(ch, f.AfterWrite(bs))
      ensures old(Ready(ch, f)) && !f.CanWrite(bs) ==> r == NotWritten
    {
      if Ready(ch, f) {
        AskWrite(ch.peer.start, ch.sent, f, bs);
        assert Put32(|bs|)[..4] == Put32(|bs|);
      }
      hide Peer.Output, Peer.Unread, Holds, File.CanWrite, File.AfterWrite, Get;
      var req := Header(Host.WRITE, |bs|);
      assert ch.sent + req + bs == ch.sent + WriteRequest(bs);
      var ok := ch.WriteFull(req);
      if !ok { ch.ShutDown(); return NotWritten; }
      ok := ch.WriteFull(bs);
      if !ok { ch.ShutDown(); return NotWritten; }
      r := TakeAcknowledgement(ch, |bs|);
    }

    /** A request answered with a 64-bit position. */
    method AskPosition(ch: Connection, request: seq<byte>) returns (r: SeekResult)
      requires request != []
      modifies ch
      ensures r == NotMoved ==> ch.down
      ensures old(ch.down) ==> r == NotMoved && ch.sent == old(ch.sent) && ch.got == old(ch.got)
      ensures r != NotMoved ==>
        && !ch.down && ch.got == old(ch.got) + 8 && ch.sent == old(ch.sent) + request
        && var reply := ch.peer.Unread(ch.sent, old(ch.got)); |reply| >= 8 && r == At(Signed64(reply[..8]))
      ensures old(ch.Reliable() && |ch.peer.Unread(ch.sent + request, ch.got)| >= 8) ==> r != NotMoved
    {
      hide Peer.Unread, Peer.Output, Signed64;
      var ok := ch.WriteFull(request);
      if !ok { ch.ShutDown(); return NotMoved; }
      var off := new byte[8];
      ok := ch.ReadFull(off, 8);
      if !ok { ch.ShutDown(); return NotMoved; }
      assert off[..] == off[..8];
      r := At(Signed64(off[..]));
    }

    /** afio_seek: AVSEEK_SIZE asks for the size; anything else moves the cursor. */
    method Seek(ch: Connection, offset: int, whence: nat, ghost f: File) returns (r: SeekResult)
      requires -TWO64 / 2 <= offset < TWO64 / 2
      modifies ch
      ensures r == NotMoved ==> ch.down
      ensures old(ch.down) ==> r == NotMoved && ch.sent == old(ch.sent) && ch.got == old(ch.got)
      ensures r != NotMoved ==>
        && !ch.down && ch.got == old(ch.got) + 8
        && ch.sent == old(ch.sent)
             + (if whence == AVSEEK_SIZE then [Host.SIZE] else SeekRequest(offset, WhenceByte(whence)))
        && var reply := ch.peer.Unread(ch.sent, old(ch.got)); |reply| >= 8 && r == At(Signed64(reply[..8]))
      ensures old(Ready(ch, f)) && whence == AVSEEK_SIZE ==> r == At(|f.data|) && Ready(ch, f)
      ensures old(Ready(ch, f)) && whence != AVSEEK_SIZE && f.CanSeek(offset, WhenceByte(whence)) ==>
        r == At(f.Target(offset, WhenceByte(whence))) && Ready(ch, f.AfterSeek(offset, WhenceByte(whence)))
      ensures old(Ready(ch, f)) && whence != AVSEEK_SIZE && !f.CanSeek(offset, WhenceByte(whence)) ==> r == NotMoved
    {
      if Ready(ch, f) {
        if whence == AVSEEK_SIZE {
          AskSize(ch.peer.start, ch.sent, f);
          assert Put64(|f.data|)[..8] == Put64(|f.data|);
        } else {
          AskSeek(ch.peer.start, ch.sent, f, offset, WhenceByte(whence));
          if f.CanSeek(offset, WhenceByte(whence)) {
            assert Put64(f.Target(offset, WhenceByte(whence)))[..8] == Put64(f.Target(offset, WhenceByte(whence)));
          }
        }
      }
      hide Peer.Output, Peer.Unread, Holds, File.CanSeek, File.AfterSeek, File.Target, WhenceByte, Signed64,
        SeekRequest;
      if whence == AVSEEK_SIZE {
        r := AskPosition(ch, [Host.SIZE]);
      } else {
        var req := SeekFrame(offset, WhenceByte(whence));
        r := AskPosition(ch, req);
      }
    }

    /** One call of any kind. */
    method Call(ch: Connection, q: Request, ghost f: File) returns (a: Answer)
      requires q.Valid()
      modifies ch
      ensures a == Error ==> ch.down
      ensures old(ch.down) ==> a == Error && ch.sent == old(ch.sent) && ch.got == old(ch.got)
      ensures old(Ready(ch, f)) ==> a == LocalAnswer(f, q) && (a != Error ==> Ready(ch, LocalNext(f, q)))
    {
      hide Ready, File.AfterRead, File.AfterWrite, File.AfterSeek, File.CanWrite, File.CanSeek, File.Target, WhenceByte;
      match q {
        case ReadUpTo(size) =>
          var buf := new byte[size];
          var r := Read(ch, buf, size, f);
          a := match r case Failed => Error case Eof => EndOfFile case Got(n) => Bytes(buf[..n]);
        case WriteAll(bs) =>
          var r := Write(ch, bs, f);
          a := match r case NotWritten => Error case Wrote(n) => Count(n);
        case SeekTo(offset, whence) =>
          var r := Seek(ch, offset, whence, f);
          a := match r case NotMoved => Error case At(pos) => Position(pos);
      }
    }

    /** Any sequence of calls on one session. An honest host answers them all as a local file
        would, and keeps both directions empty; whatever the host, nothing succeeds after a
        failure, and nothing more is sent or read. */
    method Drive(ch: Connection, qs: seq<Request>, ghost f: File) returns (answers: seq<Answer>)
      requires forall q <- qs :: q.Valid()
      modifies ch
      ensures |answers| == |qs|
      ensures old(Ready(ch, f)) ==> answers == LocalRun(f, qs)
      ensures old(Ready(ch, f)) && Error !in answers ==> Ready(ch, LocalEnd(f, qs))
      ensures old(ch.down) ==> ch.sent == old(ch.sent) && ch.got == old(ch.got)
      ensures forall i :: 0 <= i < |answers| && (old(ch.down) || Error in answers[..i]) ==> answers[i] == Error
    {
      hide Ready, LocalAnswer, LocalNext;
      if qs == [] {
        return [];
      }
      var a := Call(ch, qs[0], f);
      var rest := Drive(ch, qs[1..], LocalNext(f, qs[0]));
      answers := [a] + rest;
      forall i | 0 < i < |answers| && Error in answers[..i] ensures answers[i] == Error {
        assert answers[..i] == [a] + rest[..i - 1];
      }
    }
  }

  /** End of file is reported at the end of the file and nowhere else. */
  lemma EofOnlyAtEnd(f: File, size: nat)
    requires size > 0
    ensures LocalAnswer(f, ReadUpTo(size)) == EndOfFile <==> f.pos >= |f.data|
  {}
}
