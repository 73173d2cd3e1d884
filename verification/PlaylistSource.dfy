/** The in-memory playlist as libav reads it: a read-only file that cannot be left behind its end. */
module PlaylistSource {
  import opened Basics
  import opened Wire
  import opened LocalFile
  import Client

  class Source {
    const data: array<byte>
    var pos: nat

    ghost predicate Valid()
      reads this, data
    {
      pos <= data.Length <= OFFSET_MAX
    }

    /** The plain file it stands for. */
    ghost function AsFile(): File
      reads this, data
    {
      File(data[..], pos, false)
    }

    constructor (data: array<byte>)
      requires data.Length <= OFFSET_MAX
      ensures Valid() && this.data == data && AsFile() == File(data[..], 0, false)
    {
      this.data := data;
      pos := 0;
    }

    /** pl_read: what a plain file would give; None is its end. Nothing past that is stored. */
    method Read(buf: array<byte>, n: nat) returns (r: Option<nat>)
      requires Valid() && n <= buf.Length && buf != data
      modifies this, buf
      ensures Valid() && AsFile() == old(AsFile()).AfterRead(n)
      ensures r == None <==> old(pos) == data.Length
      ensures r.Some? ==> r.value <= n && buf[..r.value] == old(AsFile()).Readable(n) && (n > 0 ==> r.value > 0)
      ensures forall i :: 0 <= i < buf.Length && !(r.Some? && i < r.value) ==> buf[i] == old(buf[i])
    {
      var k := data.Length - pos;
      if k <= 0 {
        return None;
      }
      if k > n { k := n; }
      forall i | 0 <= i < k {
        buf[i] := data[pos + i];
      }
      pos := pos + k;
      r := Some(k);
    }

    /** pl_seek: a plain file's seek, but only to places that are there; an unknown whence counts
        from the start. */
    method Seek(offset: int, whence: nat) returns (r: Option<nat>)
      requires Valid()
      modifies `pos
      ensures Valid()
      ensures whence == Client.AVSEEK_SIZE ==> r == Some(data.Length) && pos == old(pos)
      ensures whence != Client.AVSEEK_SIZE ==>
        var from := if whence <= 2 then whence else 0;
        var to := old(AsFile()).Target(offset, from);
        && (r.Some? <==> old(AsFile()).CanSeek(offset, from) && to <= data.Length)
        && (r.Some? ==> r.value == to && AsFile() == old(AsFile()).AfterSeek(offset, from))
        && (r.None? ==> pos == old(pos))
    {
      if whence == Client.AVSEEK_SIZE {
        return Some(data.Length);
      }
      var np := if whence == 1 then pos + offset else if whence == 2 then data.Length + offset else offset;
      if np < 0 || np > data.Length {
        return None;
      }
      pos := np;
      r := Some(np);
    }
  }
}
