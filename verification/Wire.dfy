/** Bytes, and the little-endian integers of the bridge's frames. */
module Wire {
  type byte = x: int | 0 <= x < 256

  function Power256(k: nat): (p: nat)
    ensures p > 0
  {
    if k == 0 then 1 else 256 * Power256(k - 1)
  }

  /** v in k little-endian bytes, keeping the low-order ones. */
  function Put(k: nat, v: nat): (bs: seq<byte>)
    ensures |bs| == k
  {
    if k == 0 then [] else [v % 256] + Put(k - 1, v / 256)
  }

  function Get(bs: seq<byte>): (v: nat)
    ensures v < Power256(|bs|)
  {
    if bs == [] then 0 else bs[0] + 256 * Get(bs[1..])
  }

  /** Printing and reading back is the identity on every value that fits. */
  lemma {:induction false} GetPut(k: nat, v: nat)
    requires v < Power256(k)
    ensures Get(Put(k, v)) == v
  {
    if k > 0 {
      assert Put(k, v)[1..] == Put(k - 1, v / 256);
      GetPut(k - 1, v / 256);
    }
  }

  lemma {:induction false} PutGet(bs: seq<byte>)
    ensures Put(|bs|, Get(bs)) == bs
  {
    if bs != [] {
      PutGet(bs[1..]);
      assert Get(bs) % 256 == bs[0] && Get(bs) / 256 == Get(bs[1..]);
    }
  }

  /** The lowest byte comes first. */
  lemma {:induction false} PutDigit(k: nat, v: nat, i: nat)
    requires i < k
    ensures Put(k, v)[i] == (v / Power256(i)) % 256
  {
    if i > 0 {
      PutDigit(k - 1, v / 256, i - 1);
      DivTwice(v, Power256(i - 1));
    }
  }

  lemma DivTwice(v: nat, b: nat)
    requires b > 0
    ensures (v / 256) / b == v / (256 * b)
  {
    var (q, r) := (v / 256, v % 256);
    var (p, t) := (q / b, q % b);
    assert q == b * p + t;
    Regroup(b, p);
    DivIs(v, 256 * b, p, 256 * t + r);
  }

  lemma Regroup(b: nat, p: nat)
    ensures (256 * b) * p == 256 * (b * p)
  {}

  lemma DivIs(v: nat, d: nat, p: nat, r: nat)
    requires v == d * p + r && r < d
    ensures v / d == p
  {
    var q := v / d;
    assert d * q <= v < d * q + d;
    if q < p { Grows(d, q, p); }
    if p < q { Grows(d, p, q); }
  }

  lemma Grows(d: nat, a: nat, b: nat)
    requires a < b
    ensures d * a + d <= d * b
  {
    assert d * (a + 1) <= d * b;
  }

  const TWO32: int := 0x1_0000_0000
  const TWO64: int := 0x1_0000_0000_0000_0000

  lemma Widths()
    ensures Power256(4) == TWO32 && Power256(8) == TWO64
  {
    assert Power256(2) == 0x1_0000;
    assert Power256(4) == 256 * (256 * Power256(2));
    assert Power256(6) == 256 * (256 * Power256(4));
    assert Power256(8) == 256 * (256 * Power256(6));
  }

  function Put32(v: nat): (bs: seq<byte>)
    requires v < TWO32
    ensures |bs| == 4 && Get(bs) == v
  {
    Widths();
    GetPut(4, v);
    Put(4, v)
  }

  /** A 64-bit two's-complement value on the wire. */
  function Put64(v: int): (bs: seq<byte>)
    requires -TWO64 / 2 <= v < TWO64 / 2
    ensures |bs| == 8 && Signed64(bs) == v
  {
    var u := if v < 0 then v + TWO64 else v;
    Widths();
    GetPut(8, u);
    Put(8, u)
  }

  function Signed64(bs: seq<byte>): (v: int)
    requires |bs| == 8
    ensures -TWO64 / 2 <= v < TWO64 / 2
  {
    Widths();
    var u := Get(bs);
    if u >= TWO64 / 2 then u - TWO64 else u
  }

  /** A signed value is its unsigned one, or that less 2^64. */
  lemma SignedIsTwosComplement(bs: seq<byte>)
    requires |bs| == 8
    ensures Signed64(bs) == Get(bs) || Signed64(bs) == Get(bs) - TWO64
    ensures Signed64(bs) < 0 <==> bs[7] >= 128
  {
    Widths();
    TopByte(bs);
  }

  lemma TopByte(bs: seq<byte>)
    requires |bs| == 8
    ensures Get(bs) >= TWO64 / 2 <==> bs[7] >= 128
  {
    assert bs == bs[..7] + [bs[7]];
    GetSnoc(bs[..7], bs[7]);
    Widths();
    assert Power256(8) == 256 * Power256(7);
  }

  /** put32 / put64: fill width bytes of a buffer in place, lowest first. */
  method PutInto(b: array<byte>, at: nat, width: nat, v: nat)
    requires at + width <= b.Length
    modifies b
    ensures b[..] == old(b[..at]) + Put(width, v) + old(b[at + width..])
  {
    var rest := v;
    for i := 0 to width
      invariant b[..at] == old(b[..at]) && b[at + width..] == old(b[at + width..])
      invariant b[at..at + i] + Put(width - i, rest) == Put(width, v)
    {
      b[at + i] := rest % 256;
      assert b[at..at + i + 1] == b[at..at + i] + [rest % 256];
      assert b[at..at + i] + Put(width - i, rest) == b[at..at + i] + [rest % 256] + Put(width - i - 1, rest / 256);
      rest := rest / 256;
    }
    assert b[..] == b[..at] + b[at..at + width] + b[at + width..];
  }

  lemma {:induction false} GetSnoc(bs: seq<byte>, x: byte)
    ensures Get(bs + [x]) == Get(bs) + x * Power256(|bs|)
  {
    if bs != [] {
      GetSnoc(bs[1..], x);
      assert (bs + [x])[1..] == bs[1..] + [x];
      Shifted(x, Power256(|bs| - 1));
    }
  }

  lemma Shifted(x: int, p: int)
    ensures x * (256 * p) == 256 * (x * p)
  {}

  /** get32 / get64: gather width bytes of a buffer, lowest first. */
  method GetFrom(b: array<byte>, width: nat) returns (v: nat)
    requires width <= b.Length
    ensures v == Get(b[..width])
  {
    v := 0;
    var weight: nat := 1;
    for i := 0 to width
      invariant v == Get(b[..i]) && weight == Power256(i)
    {
      GetSnoc(b[..i], b[i]);
      assert b[..i + 1] == b[..i] + [b[i]];
      v, weight := v + b[i] * weight, weight * 256;
    }
  }
}
