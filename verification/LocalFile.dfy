/** A plain file with a cursor: what an operating system offers, and what the bridge promises
    to be indistinguishable from. */
module LocalFile {
  import opened Wire

  const OFFSET_MAX: int := 0x7FFF_FFFF_FFFF_FFFF

  datatype File = File(data: seq<byte>, pos: nat, writable: bool) {
    predicate Valid() {
      |data| <= OFFSET_MAX && pos <= OFFSET_MAX
    }

    /** The bytes a read of `count` returns: fewer at the end, none past it. */
    function Readable(count: nat): (bs: seq<byte>)
      ensures |bs| <= count
      ensures count > 0 ==> (bs == [] <==> pos >= |data|)
    {
      data[Least(pos, |data|)..Least(pos + count, |data|)]
    }

    function AfterRead(count: nat): (f: File)
      ensures Valid() ==> f.Valid()
    {
      this.(pos := pos + |Readable(count)|)
    }

    predicate CanWrite(bs: seq<byte>) {
      writable && pos + |bs| <= OFFSET_MAX
    }

    /** Writing past the end first fills the gap with zeros; writing inside overwrites. */
    function AfterWrite(bs: seq<byte>): (f: File)
      requires CanWrite(bs)
      ensures Valid() ==> f.Valid()
    {
      if bs == [] then this
      else
        var padded := data + seq(if pos > |data| then pos - |data| else 0, _ => 0);
        File(padded[..pos] + bs + padded[Least(pos + |bs|, |padded|)..], pos + |bs|, writable)
    }

    /** SEEK_SET, SEEK_CUR and SEEK_END. */
    function Target(offset: int, whence: int): int {
      if whence == 0 then offset else if whence == 1 then pos + offset else |data| + offset
    }

    predicate CanSeek(offset: int, whence: int) {
      0 <= whence <= 2 && 0 <= Target(offset, whence) <= OFFSET_MAX
    }

    function AfterSeek(offset: int, whence: int): (f: File)
      requires CanSeek(offset, whence)
      ensures Valid() ==> f.Valid()
    {
      this.(pos := Target(offset, whence))
    }
  }

  function Least(a: nat, b: nat): nat {
    if a <= b then a else b
  }

  /** What was just written reads back, nothing else changed, a gap before it is zeros, and the cursor
      stands behind it. */
  lemma WriteThenRead(f: File, bs: seq<byte>)
    requires f.CanWrite(bs) && bs != []
    ensures var g := f.AfterWrite(bs);
      && g.(pos := f.pos).Readable(|bs|) == bs && g.pos == f.pos + |bs|
      && (forall i :: 0 <= i < |f.data| && !(f.pos <= i < f.pos + |bs|) ==> i < |g.data| && g.data[i] == f.data[i])
      && (forall i :: |f.data| <= i < f.pos ==> g.data[i] == 0)
      && |g.data| == (if f.pos + |bs| > |f.data| then f.pos + |bs| else |f.data|)
  {}

  /** Two writes in a row are one write of both. */
  lemma WritesJoin(f: File, a: seq<byte>, b: seq<byte>)
    requires f.CanWrite(a + b)
    ensures f.CanWrite(a) && f.AfterWrite(a).CanWrite(b)
    ensures f.AfterWrite(a).AfterWrite(b) == f.AfterWrite(a + b)
  {
    EmptyWrite(f);
    if a != [] { BytesOf(f, a); }
    hide File.AfterWrite;
    if a == [] {
      assert a + b == b;
    } else if b == [] {
      assert a + b == a;
      EmptyWrite(f.AfterWrite(a));
    } else {
      var (g, h, k) := (f.AfterWrite(a), f.AfterWrite(a).AfterWrite(b), f.AfterWrite(a + b));
      BytesOf(g, b);
      BytesOf(f, a + b);
      forall i | 0 <= i < |k.data| ensures h.data[i] == k.data[i] {}
      assert h.data == k.data;
    }
  }

  lemma EmptyWrite(f: File)
    ensures f.CanWrite([]) ==> f.AfterWrite([]) == f
  {}

  /** A written file byte by byte. */
  lemma BytesOf(f: File, bs: seq<byte>)
    requires f.CanWrite(bs) && bs != []
    ensures var g := f.AfterWrite(bs);
      && g.pos == f.pos + |bs| && g.writable == f.writable
      && |g.data| == (if f.pos + |bs| > |f.data| then f.pos + |bs| else |f.data|)
      && forall i :: 0 <= i < |g.data| ==>
          g.data[i] == if f.pos <= i < f.pos + |bs| then bs[i - f.pos] else if i < |f.data| then f.data[i] else 0
  {}

  /** Two reads in a row are one read of both. */
  lemma ReadsJoin(f: File, m: nat, n: nat)
    ensures f.Readable(m) + f.AfterRead(m).Readable(n) == f.Readable(m + n)
    ensures f.AfterRead(m).AfterRead(n) == f.AfterRead(m + n)
  {}

  /** Reading gives the bytes from the cursor on, as many as there are up to the count asked for. */
  lemma ReadIsWhatIsThere(f: File, count: nat)
    ensures |f.Readable(count)| == if f.pos >= |f.data| then 0 else Least(count, |f.data| - f.pos)
    ensures forall i :: 0 <= i < |f.Readable(count)| ==> f.Readable(count)[i] == f.data[f.pos + i]
  {}

  /** Seeks from the cursor add up, a seek from the start or the end forgets the ones before it, and none
      touches the bytes. */
  lemma SeeksJoin(f: File, a: int, v: int, b: int)
    requires f.CanSeek(a, v)
    ensures var g := f.AfterSeek(a, v);
      && g.data == f.data && g.writable == f.writable
      && (f.CanSeek(a + b, v) <==> g.CanSeek(b, 1))
      && (g.CanSeek(b, 1) ==> g.AfterSeek(b, 1) == f.AfterSeek(a + b, v))
      && (forall w <- [0, 2] :: f.CanSeek(b, w) <==> g.CanSeek(b, w))
      && (forall w <- [0, 2] :: f.CanSeek(b, w) ==> g.AfterSeek(b, w) == f.AfterSeek(b, w))
  {}

  /** The start is before the first byte, the end behind the last, and where one is is where one is. */
  lemma SeekLandmarks(f: File, k: int)
    requires f.Valid() && k >= 0
    ensures f.CanSeek(0, 0) && f.AfterSeek(0, 0).Readable(|f.data|) == f.data
    ensures f.CanSeek(0, 1) && f.AfterSeek(0, 1) == f
    ensures k <= |f.data| ==> f.CanSeek(-k, 2) && f.AfterSeek(-k, 2).Readable(|f.data|) == f.data[|f.data| - k..]
    ensures !f.CanSeek(0, 3) && !f.CanSeek(-1, 0)
  {}

  /** Going back over what was written and reading it. */
  lemma WriteSeekRead(f: File, bs: seq<byte>)
    requires f.Valid() && f.CanWrite(bs)
    ensures var g := f.AfterWrite(bs);
      g.CanSeek(-|bs|, 1) && g.AfterSeek(-|bs|, 1).Readable(|bs|) == bs
  {
    if bs != [] {
      WriteThenRead(f, bs);
    }
  }
}
