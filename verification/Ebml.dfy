/** EBML, section 4 of RFC 8794: the fixture writer's elements and a reader written from the
    standard, which accepts every width the standard allows. */
module Ebml {
  import opened Basics
  import opened Wire

  // ---- big-endian integers ----------------------------------------------------

  function BeValue(bs: seq<byte>): (v: nat)
    ensures v < Power256(|bs|)
  {
    if bs == [] then 0
    else
      var n := |bs| - 1;
      BeValue(bs[..n]) * 256 + bs[n]
  }

  function Be(k: nat, v: nat): (bs: seq<byte>)
    ensures |bs| == k
  {
    if k == 0 then [] else Be(k - 1, v / 256) + [v % 256]
  }

  lemma {:induction false} BeReadsBack(k: nat, v: nat)
    requires v < Power256(k)
    ensures BeValue(Be(k, v)) == v
  {
    if k > 0 {
      BeReadsBack(k - 1, v / 256);
      assert Be(k, v)[..k - 1] == Be(k - 1, v / 256);
    }
  }

  /** The big-endian bytes of v with no leading zero. */
  function Minimal(v: nat): (bs: seq<byte>)
    ensures BeValue(bs) == v
  {
    if v == 0 then []
    else
      var high := Minimal(v / 256);
      assert (high + [v % 256])[..|high|] == high;
      high + [v % 256]
  }

  function UintPayload(v: nat): (bs: seq<byte>)
    ensures BeValue(bs) == v && bs != []
  {
    if v == 0 then assert [0][..0] == []; [0] else Minimal(v)
  }

  // ---- the writer ---------------------------------------------------------------

  const TWO56: int := 0x100_0000_0000_0000

  /** A length in eight bytes, with the eight-byte marker set in the first. */
  function Vint(n: nat): (bs: seq<byte>)
    requires n < TWO64
    ensures |bs| == 8
  {
    var b := Be(8, n);
    [if b[0] % 2 == 0 then b[0] + 1 else b[0]] + b[1..]
  }

  type Id = seq<byte>

  /** An element around a payload. */
  function El(id: Id, payload: seq<byte>): (bs: seq<byte>)
    requires |payload| < TWO64
    ensures |bs| == |id| + 8 + |payload|
  {
    id + Vint(|payload|) + payload
  }

  lemma PayloadFits(v: nat)
    requires v < TWO64
    ensures |UintPayload(v)| <= 8
  {
    Widths();
    MinimalShort(v, 8);
  }

  function UintEl(id: Id, v: nat): (bs: seq<byte>)
    requires v < TWO64
    ensures |bs| <= |id| + 16
  {
    PayloadFits(v);
    El(id, UintPayload(v))
  }

  lemma BeStep(k: nat, v: nat, tail: seq<byte>)
    requires k > 0
    ensures Be(k, v) + tail == Be(k - 1, v / 256) + ([v % 256] + tail)
  {}

  /** vint: the marker is set in place in the eight bytes. */
  method WriteVint(n: nat) returns (bs: seq<byte>)
    requires n < TWO64
    ensures bs == Vint(n)
  {
    var b := new byte[8];
    var rest := n;
    assert Be(0, 0) == [];
    hide Be;
    for i := 0 to 8
      invariant Be(8, n) == Be(8 - i, rest) + b[8 - i..]
    {
      BeStep(8 - i, rest, b[8 - i..]);
      ghost var tail := b[8 - i..];
      b[7 - i] := rest % 256;
      assert b[7 - i..] == [rest % 256] + tail;
      rest := rest / 256;
    }
    assert |Be(0, rest)| == 0 && b[0..] == b[..];
    if b[0] % 2 == 0 {
      b[0] := b[0] + 1;
    }
    bs := b[..];
  }

  lemma MinimalStep(v: nat, tail: seq<byte>)
    requires v > 0
    ensures Minimal(v) + tail == Minimal(v / 256) + ([v % 256] + tail)
  {}

  method MinimalBytes(v: nat) returns (b: seq<byte>)
    ensures b == UintPayload(v)
  {
    b := [];
    if v == 0 {
      return [0];
    }
    var rest := v;
    assert Minimal(0) == [] && Minimal(v) + [] == Minimal(v);
    hide Minimal;
    while rest > 0
      invariant Minimal(v) == Minimal(rest) + b
    {
      MinimalStep(rest, b);
      b := [rest % 256] + b;
      rest := rest / 256;
    }
  }

  /** uintEl: an unsigned integer in as few bytes as it needs, but at least one. */
  method WriteUintEl(id: Id, v: nat) returns (bs: seq<byte>)
    requires v < TWO64
    ensures bs == UintEl(id, v)
  {
    var b := MinimalBytes(v);
    PayloadFits(v);
    bs := id + Vint(|b|) + b;
  }

  lemma {:induction false} MinimalShort(v: nat, k: nat)
    requires v < Power256(k)
    ensures |Minimal(v)| <= k
  {
    if v > 0 {
      MinimalShort(v / 256, k - 1);
    }
  }

  // ---- the reader -----------------------------------------------------------------

  /** The width a first byte announces: one more than its leading zero bits; none in eight. */
  function Width(b: byte): (w: nat)
    ensures w <= 8
  {
    if b >= 0x80 then 1 else if b >= 0x40 then 2 else if b >= 0x20 then 3 else if b >= 0x10 then 4
    else if b >= 8 then 5 else if b >= 4 then 6 else if b >= 2 then 7 else if b == 1 then 8 else 0
  }

  function Marker(w: nat): (m: byte)
    requires 1 <= w <= 8
  {
    [0x80, 0x40, 0x20, 0x10, 8, 4, 2, 1][w - 1]
  }

  /** An element data size: its value and the bytes it takes. */
  function ReadVint(bs: seq<byte>): Option<(nat, nat)> {
    if bs == [] then None
    else
      var w := Width(bs[0]);
      if w == 0 || |bs| < w then None
      else Some((BeValue([bs[0] - Marker(w)] + bs[1..w]), w))
  }

  /** All data bits set means "size unknown". */
  predicate Unknown(size: nat, w: nat) {
    1 <= w <= 8 && size == [0x7F, 0x3FFF, 0x1F_FFFF, 0xFFF_FFFF, 0x7_FFFF_FFFF, 0x3FF_FFFF_FFFF, 0x1_FFFF_FFFF_FFFF,
                            0xFF_FFFF_FFFF_FFFF][w - 1]
  }

  datatype Elem = Elem(id: Id, payload: seq<byte>)

  datatype Parsed = Parsed(elem: Elem, rest: seq<byte>)

  /** The element at the front of the stream, if a whole one of known size is there. */
  function Parse(bs: seq<byte>): (p: Option<Parsed>)
    ensures p.Some? ==> |p.value.rest| < |bs|
  {
    if bs == [] then None
    else
      var idw := Width(bs[0]);
      if idw == 0 || idw > 4 || |bs| < idw then None
      else
        var size := ReadVint(bs[idw..]);
        if size.None? || Unknown(size.value.0, size.value.1) || |bs| < idw + size.value.1 + size.value.0 then None
        else
          var at := idw + size.value.1;
          Some(Parsed(Elem(bs[..idw], bs[at..at + size.value.0]), bs[at + size.value.0..]))
  }

  /** A run of elements with nothing between or after them. */
  function Children(bs: seq<byte>): Option<seq<Elem>>
    decreases |bs|
  {
    if bs == [] then Some([])
    else
      var p := Parse(bs);
      if p.None? then None
      else
        var rest := Children(p.value.rest);
        if rest.None? then None else Some([p.value.elem] + rest.value)
  }

  // ---- round trips ----------------------------------------------------------------

  lemma Scale(a: nat, p: nat)
    ensures a * (256 * p) == 256 * (a * p)
  {}

  /** The first byte bounds the value from both sides. */
  lemma {:induction false} BeLeading(bs: seq<byte>)
    requires bs != []
    ensures bs[0] * Power256(|bs| - 1) <= BeValue(bs) < (bs[0] + 1) * Power256(|bs| - 1)
  {
    var n := |bs| - 1;
    if n == 0 {
      assert bs[..0] == [];
    } else {
      BeLeading(bs[..n]);
      var first: nat := bs[0];
      Scale(first, Power256(n - 1));
      Scale(first + 1, Power256(n - 1));
    }
  }

  lemma Power7()
    ensures Power256(7) == TWO56 && Power256(8) == TWO64
  {
    Widths();
    assert Power256(8) == 256 * Power256(7);
  }

  /** A printed length reads back exactly when it is below 2^56: above, the marker and the length
      share a byte. */
  lemma VintReadsBack(n: nat, rest: seq<byte>)
    requires n < TWO64
    ensures ReadVint(Vint(n) + rest) == Some((n, 8)) <==> n < TWO56
  {
    Power7();
    BeReadsBack(8, n);
    BeLeading(Be(8, n));
    var (b, v) := (Be(8, n), Vint(n));
    if n < TWO56 {
      assert b[0] == 0;
      assert [v[0] - Marker(8)] + (v + rest)[1..8] == b;
    } else if v[0] == 1 {
      BeLeading([0] + (v + rest)[1..8]);
    }
  }

  // An identifier the standard can read: its first byte announces its own width.
  predicate ValidId(id: Id) {
    id != [] && Width(id[0]) == |id| <= 4
  }

  /** A printed element reads back, whatever follows it, exactly when its length is below the
      eight-byte "unknown" size. */
  lemma ElReadsBack(id: Id, payload: seq<byte>, rest: seq<byte>)
    requires ValidId(id) && |payload| < TWO64
    ensures Parse(El(id, payload) + rest) == Some(Parsed(Elem(id, payload), rest)) <==> |payload| < TWO56 - 1
  {
    var bs := El(id, payload) + rest;
    assert bs[..|id|] == id && bs[|id|..] == Vint(|payload|) + (payload + rest);
    VintReadsBack(|payload|, payload + rest);
    if |payload| < TWO56 - 1 {
      assert bs[|id| + 8..|id| + 8 + |payload|] == payload && bs[|id| + 8 + |payload|..] == rest;
    }
  }

  lemma ChildrenOfEl(id: Id, payload: seq<byte>, rest: seq<byte>)
    requires ValidId(id) && |payload| < TWO56 - 1 && Children(rest).Some?
    ensures Children(El(id, payload) + rest) == Some([Elem(id, payload)] + Children(rest).value)
  {
    ElReadsBack(id, payload, rest);
  }

  lemma Slices<T>(a: seq<T>, b: seq<T>, i: nat, j: nat)
    requires i <= j <= |a|
    ensures (a + b)[i..j] == a[i..j] && (a + b)[j..] == a[j..] + b
  {}

  lemma ReadVintAppend(bs: seq<byte>, more: seq<byte>)
    requires ReadVint(bs).Some?
    ensures ReadVint(bs + more) == ReadVint(bs)
  {
    Slices(bs, more, 1, Width(bs[0]));
  }

  /** What is parsed at the front does not depend on what follows it. */
  lemma ParseAppend(bs: seq<byte>, more: seq<byte>)
    requires Parse(bs).Some?
    ensures Parse(bs + more) == Some(Parsed(Parse(bs).value.elem, Parse(bs).value.rest + more))
  {
    hide ReadVint, Width, Unknown;
    var idw := Width(bs[0]);
    var size := ReadVint(bs[idw..]);
    var at := idw + size.value.1;
    Slices(bs, more, 0, idw);
    ReadVintAppend(bs[idw..], more);
    Slices(bs, more, at, at + size.value.0);
    assert (bs + more)[..idw] == (bs + more)[0..idw] && bs[..idw] == bs[0..idw];
  }

  lemma Associates<T>(x: seq<T>, y: seq<T>, z: seq<T>)
    ensures x + (y + z) == (x + y) + z
  {}

  lemma ChildrenStep(bs: seq<byte>)
    requires Parse(bs).Some?
    ensures var (p, rest) := (Parse(bs).value, Children(Parse(bs).value.rest));
            Children(bs) == if rest.None? then None else Some([p.elem] + rest.value)
  {}

  lemma {:induction false} ChildrenConcat(a: seq<byte>, b: seq<byte>)
    requires Children(a).Some? && Children(b).Some?
    ensures Children(a + b) == Some(Children(a).value + Children(b).value)
    decreases |a|
  {
    if a == [] {
      assert a + b == b && Children(a).value + Children(b).value == Children(b).value;
    } else {
      ChildrenStep(a);
      ParseAppend(a, b);
      ChildrenStep(a + b);
      hide Parse;
      var p := Parse(a).value;
      ChildrenConcat(p.rest, b);
      hide Children;
      Associates([p.elem], Children(p.rest).value, Children(b).value);
    }
  }

  lemma OnlyChild(id: Id, payload: seq<byte>)
    requires ValidId(id) && |payload| < TWO56 - 1
    ensures Children(El(id, payload)) == Some([Elem(id, payload)])
  {
    ChildrenOfEl(id, payload, []);
    hide Parse, El;
    assert El(id, payload) + [] == El(id, payload);
    assert [Elem(id, payload)] + [] == [Elem(id, payload)];
  }

  /** The first child with an identifier. */
  function Find(es: seq<Elem>, id: Id): Option<seq<byte>> {
    if es == [] then None else if es[0].id == id then Some(es[0].payload) else Find(es[1..], id)
  }

  lemma FindSecond(a: Elem, b: Elem)
    ensures Find([a] + [b], a.id) == Some(a.payload)
    ensures a.id != b.id ==> Find([a] + [b], b.id) == Some(b.payload)
  {
    assert ([a] + [b])[1..] == [b];
  }

  predicate Absent(es: seq<Elem>, id: Id) {
    forall e <- es :: e.id != id
  }

  lemma AbsentConcat(a: seq<Elem>, b: seq<Elem>, id: Id)
    requires Absent(a, id) && Absent(b, id)
    ensures Absent(a + b, id)
  {}

  lemma {:induction false} FindAfter(es: seq<Elem>, e: Elem)
    requires Absent(es, e.id)
    ensures Find(es + [e], e.id) == Some(e.payload)
  {
    if es == [] {
      assert es + [e] == [e];
    } else {
      assert es[0] in es && (es + [e])[1..] == es[1..] + [e];
      FindAfter(es[1..], e);
    }
  }
}
