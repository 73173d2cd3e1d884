/** One connection as the engine sees it: bytes go out in pieces, bytes come back in pieces, and
    either direction may fail at any call. */
module Channel {
  import opened Wire
  import Host

  /** What is at the other end. A peer is everything it has ever sent by the time it has received
      `sent`: the honest host of module Host over a reliable stream, or anything at all. A late or
      abandoned reply of an arbitrary peer is output that appears after a later request. */
  datatype Peer =
    | Honest(start: Host.State)
    | Arbitrary(replies: seq<byte> -> seq<byte>)
  {
    function Output(sent: seq<byte>): seq<byte> {
      match this
      case Honest(start) => Host.Serve(start, sent).output
      case Arbitrary(replies) => replies(sent)
    }

    /** What is left of that output once `got` bytes of it were taken. */
    function Unread(sent: seq<byte>, got: nat): seq<byte> {
      var out := Output(sent);
      if got <= |out| then out[got..] else []
    }
  }

  class Connection {
    const peer: Peer
    var sent: seq<byte>   // everything handed to the peer
    var got: nat          // how much of the peer's output has been taken
    var down: bool        // shut down: nothing more can be sent

    constructor (peer: Peer)
      ensures this.peer == peer && sent == [] && got == 0 && !down
    {
      this.peer := peer;
      sent, got, down := [], 0, false;
    }

    /** The peer's output not yet taken. */
    ghost function Pending(): seq<byte>
      reads this
    {
      peer.Unread(sent, got)
    }

    ghost predicate Reliable()
      reads this
    {
      peer.Honest? && !down
    }

    /** send(): takes some non-empty part of the bytes, or fails. */
    method Send(p: seq<byte>) returns (r: int)
      requires p != []
      modifies `sent
      ensures r <= |p| && (down ==> r <= 0) && (Reliable() ==> r > 0)
      ensures sent == if r > 0 then old(sent) + p[..r] else old(sent)
    {
      var accepts: int :| accepts <= |p| && (down ==> accepts <= 0) && (peer.Honest? && !down ==> accepts > 0);
      r := accepts;
      if r > 0 {
        sent := sent + p[..r];
      }
    }

    /** read(): puts some non-empty part of what is pending at buf[at..], or fails. A connection
        that was shut down may still hold bytes that arrived before. */
    method Receive(buf: array<byte>, at: nat, n: nat) returns (r: int)
      requires 0 < n && at + n <= buf.Length
      modifies `got, buf
      ensures r <= n && r <= |old(Pending())| && (old(Reliable() && Pending() != []) ==> r > 0)
      ensures r <= 0 ==> got == old(got)
      ensures r > 0 ==> got == old(got) + r && Pending() == old(Pending())[r..]
      ensures r > 0 ==> forall i :: 0 <= i < r ==> buf[at + i] == old(Pending())[i]
      ensures forall i :: 0 <= i < buf.Length && !(at <= i < at + r) ==> buf[i] == old(buf[i])
    {
      var pending := peer.Unread(sent, got);
      var k: nat :| k <= n && k <= |pending| && (peer.Honest? && !down && pending != [] ==> k > 0);
      forall i | 0 <= i < k {
        buf[at + i] := pending[i];
      }
      got := got + k;
      r := k;
    }

    /** wr_full: every byte, in order, however the stream cuts them up. */
    method WriteFull(p: seq<byte>) returns (ok: bool)
      modifies `sent
      ensures ok ==> sent == old(sent) + p
      ensures !ok ==> exists k :: 0 <= k < |p| && sent == old(sent) + p[..k]
      ensures down && p != [] ==> !ok && sent == old(sent)
      ensures Reliable() ==> ok
    {
      var put := 0;
      while put < |p|
        invariant put <= |p| && sent == old(sent) + p[..put]
        invariant down ==> put == 0
      {
        var r := Send(p[put..]);
        if r <= 0 {
          return false;
        }
        assert p[..put] + p[put..][..r] == p[..put + r];
        put := put + r;
      }
      ok := true;
    }

    /** rd_full: exactly n bytes into the front of the buffer, or failure; never past n. */
    method ReadFull(buf: array<byte>, n: nat) returns (ok: bool)
      requires n <= buf.Length
      modifies `got, buf
      ensures buf[n..] == old(buf[n..])
      ensures ok ==> n <= |old(Pending())| && buf[..n] == old(Pending())[..n]
      ensures ok ==> got == old(got) + n && Pending() == old(Pending())[n..]
      ensures !ok ==> old(got) <= got < old(got) + n
      ensures old(Reliable() && n <= |Pending()|) ==> ok
    {
      hide Pending;
      var had := 0;
      ghost var all := Pending();
      while had < n
        invariant had <= n && had <= |all| && got == old(got) + had
        invariant Pending() == all[had..]
        invariant forall i :: 0 <= i < had ==> buf[i] == all[i]
        invariant forall i :: n <= i < buf.Length ==> buf[i] == old(buf[i])
      {
        var r := Receive(buf, had, n - had);
        if r <= 0 {
          return false;
        }
        had := had + r;
      }
      ok := true;
    }

    /** afio_fail: nothing sent after this can succeed. */
    method ShutDown()
      modifies `down
      ensures down
    {
      down := true;
    }
  }
}
