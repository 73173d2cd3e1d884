/** Input-stream specifiers in an output's `map`: their grammar, and the stream they pick. */
module MapSpec {
  import opened Basics
  import opened MuxFixup

  const INT_MAX: nat := 0x7FFF_FFFF

  /** The best or the K-th stream of a type, or an absolute stream index. */
  datatype Selector = Best(ty: MediaType) | Kth(ty: MediaType, k: nat) | Absolute(index: nat)

  datatype Specifier = Specifier(input: nat, stream: Selector)

  // ---- the parser -------------------------------------------------------------

  /** How many digits s starts with. */
  function Run(s: string): (n: nat)
    ensures n <= |s| && Digits(s[..n]) && (n < |s| ==> !Digit(s[n]))
  {
    if s == [] || !Digit(s[0]) then 0 else 1 + Run(s[1..])
  }

  // What scan_index leaves: a value, and the text behind it.
  datatype Scanned = Scanned(value: nat, rest: string)

  /** scan_index: one complete decimal index, with no sign, no space and no wrap-around. */
  function ScanIndex(s: string): Option<Scanned> {
    var n := Run(s);
    if n == 0 || Decimal(s[..n]) > INT_MAX then None else Some(Scanned(Decimal(s[..n]), s[n..]))
  }

  /** An index with nothing behind it. */
  function ScanAll(s: string): Option<nat> {
    var r := ScanIndex(s);
    if r.None? || r.value.rest != [] then None else Some(r.value.value)
  }

  function TypeOf(c: char): Option<MediaType> {
    if c == 'v' || c == 'V' then Some(Video)
    else if c == 'a' || c == 'A' then Some(Audio)
    else if c == 's' || c == 'S' then Some(Subtitle)
    else None
  }

  /** parse_map_stream. */
  function ParseMapStream(s: string): Option<Specifier> {
    if s != [] && s[0] == '[' then None
    else
      var input := ScanIndex(s);
      if input.None? || input.value.rest == [] || input.value.rest[0] != ':' then None
      else
        var stream := ParseSelector(input.value.rest[1..]);
        if stream.None? then None else Some(Specifier(input.value.value, stream.value))
  }

  function ParseSelector(p: string): Option<Selector> {
    if p != [] && TypeOf(p[0]).Some? then
      var ty := TypeOf(p[0]).value;
      if |p| == 1 then Some(Best(ty))
      else if p[1] != ':' then None
      else
        var k := ScanAll(p[2..]);
        if k.None? then None else Some(Kth(ty, k.value))
    else
      var d := ScanAll(p);
      if d.None? then None else Some(Absolute(d.value))
  }

  // ---- the grammar ------------------------------------------------------------

  /** s is a decimal numeral for v, no larger than an int. Leading zeros are allowed. */
  predicate Numeral(s: string, v: nat) {
    s != [] && Digits(s) && Decimal(s) == v <= INT_MAX
  }

  predicate SelectorText(s: string, sel: Selector) {
    match sel
    case Best(ty) => |s| == 1 && TypeOf(s[0]) == Some(ty)
    case Kth(ty, k) => |s| > 2 && TypeOf(s[0]) == Some(ty) && s[1] == ':' && Numeral(s[2..], k)
    case Absolute(d) => Numeral(s, d)
  }

  /** s reads as the specifier: a numeral, a colon, and N's stream in one of three forms. */
  ghost predicate Denotes(s: string, spec: Specifier) {
    exists n: nat :: n < |s| && s[n] == ':' && Numeral(s[..n], spec.input) && SelectorText(s[n + 1..], spec.stream)
  }

  lemma {:induction false} RunOfNumeral(d: string, rest: string)
    requires Digits(d) && (rest != [] ==> !Digit(rest[0]))
    ensures Run(d + rest) == |d|
  {
    if d == [] {
      assert d + rest == rest;
    } else {
      assert (d + rest)[1..] == d[1..] + rest;
      RunOfNumeral(d[1..], rest);
    }
  }

  /** Scanning takes a numeral exactly when one stands at the front, up to the first non-digit. */
  lemma ScanIsNumeral(d: string, rest: string)
    requires Digits(d) && (rest != [] ==> !Digit(rest[0]))
    ensures ScanIndex(d + rest) == if d != [] && Decimal(d) <= INT_MAX then Some(Scanned(Decimal(d), rest)) else None
  {
    RunOfNumeral(d, rest);
    assert (d + rest)[..|d|] == d && (d + rest)[|d|..] == rest;
  }

  /** A numeral is what scanning takes whole. */
  lemma ScansWhole(t: string, v: nat)
    ensures ScanAll(t) == Some(v) <==> Numeral(t, v)
  {
    assert t[..|t|] == t;
    if Digits(t) {
      ScanIsNumeral(t, []);
      assert t + [] == t;
    }
  }

  lemma ParseSelectorIsExact(s: string, sel: Selector)
    ensures ParseSelector(s) == Some(sel) <==> SelectorText(s, sel)
  {
    hide ScanAll, Decimal;
    var v := match sel case Best(_) => 0 case Kth(_, k) => k case Absolute(d) => d;
    ScansWhole(s, v);
    if |s| > 2 { ScansWhole(s[2..], v); }
    ScansWhole([], v);
    assert |s| == 2 ==> s[2..] == [];
    assert s != [] ==> s[0] in s;
  }

  /** The grammar's only choice is where the leading digits end. */
  predicate DenotesFrom(s: string, r: nat, spec: Specifier) {
    r < |s| && s[r] == ':' && Numeral(s[..r], spec.input) && SelectorText(s[r + 1..], spec.stream)
  }

  lemma DenotesAtRun(s: string, spec: Specifier)
    ensures Denotes(s, spec) <==> DenotesFrom(s, Run(s), spec)
  {
    hide Decimal, SelectorText, Digits, Run;
    forall n: nat | n < |s| && s[n] == ':' && Numeral(s[..n], spec.input) ensures n == Run(s) {
      RunToColon(s, n);
    }
  }

  lemma ParsesAtRun(s: string, spec: Specifier)
    ensures ParseMapStream(s) == Some(spec) <==> DenotesFrom(s, Run(s), spec)
  {
    hide Decimal, ParseSelector, SelectorText, Digits;
    var r := Run(s);
    if r < |s| {
      ParseSelectorIsExact(s[r + 1..], spec.stream);
      assert s[r..][1..] == s[r + 1..];
    }
  }

  /** The parser accepts exactly the grammar, with the grammar's reading. */
  lemma ParseIsExact(s: string, spec: Specifier)
    ensures ParseMapStream(s) == Some(spec) <==> Denotes(s, spec)
  {
    ParsesAtRun(s, spec);
    DenotesAtRun(s, spec);
  }

  lemma RunToColon(s: string, n: nat)
    requires n < |s| && s[n] == ':' && Digits(s[..n])
    ensures Run(s) == n
  {
    RunOfNumeral(s[..n], s[n..]);
    assert s == s[..n] + s[n..];
  }

  /** So every accepted text has one reading. */
  lemma OneReading(s: string, a: Specifier, b: Specifier)
    requires Denotes(s, a) && Denotes(s, b)
    ensures a == b
  {
    ParseIsExact(s, a);
    ParseIsExact(s, b);
  }

  function Letter(ty: MediaType): char
    requires !ty.Data?
  {
    match ty case Video => 'v' case Audio => 'a' case Subtitle => 's'
  }

  /** Either case of a type's letter picks it, and no other character picks any. */
  lemma LettersPick(c: char, ty: MediaType)
    ensures TypeOf(c) == Some(ty) <==> !ty.Data? && (c == Letter(ty) || c as int + 32 == Letter(ty) as int)
  {}

  predicate Printable(spec: Specifier) {
    && spec.input <= INT_MAX
    && match spec.stream
      case Best(ty) => !ty.Data?
      case Kth(ty, k) => !ty.Data? && k <= INT_MAX
      case Absolute(d) => d <= INT_MAX
  }

  function PrintSelector(sel: Selector): string
    requires Printable(Specifier(0, sel))
  {
    match sel
    case Best(ty) => [Letter(ty)]
    case Kth(ty, k) => [Letter(ty), ':'] + Print(k)
    case Absolute(d) => Print(d)
  }

  lemma PrintedSelector(sel: Selector)
    requires Printable(Specifier(0, sel))
    ensures SelectorText(PrintSelector(sel), sel)
  {
    hide Print, Decimal;
    if sel.Kth? {
      assert PrintSelector(sel)[2..] == Print(sel.k);
    }
  }

  function PrintSpecifier(spec: Specifier): string
    requires Printable(spec)
  {
    Print(spec.input) + [':'] + PrintSelector(spec.stream)
  }

  /** A printed specifier parses back to itself. */
  lemma PrintParses(spec: Specifier)
    requires Printable(spec)
    ensures ParseMapStream(PrintSpecifier(spec)) == Some(spec)
  {
    hide Print, Decimal, PrintSelector, SelectorText, ParseMapStream;
    var s, n := PrintSpecifier(spec), |Print(spec.input)|;
    assert s[..n] == Print(spec.input) && s[n] == ':' && s[n + 1..] == PrintSelector(spec.stream);
    PrintedSelector(spec.stream);
    ParseIsExact(s, spec);
  }

  // ---- resolving ----------------------------------------------------------------

  function Count(types: seq<MediaType>, ty: MediaType): nat {
    if types == [] then 0
    else Count(types[..|types| - 1], ty) + (if types[|types| - 1] == ty then 1 else 0)
  }

  lemma {:induction false} CountGrows(types: seq<MediaType>, ty: MediaType, i: nat)
    requires i < |types|
    ensures Count(types[..i + 1], ty) == Count(types[..i], ty) + (if types[i] == ty then 1 else 0) <= Count(types, ty)
    decreases |types| - i
  {
    assert types[..i + 1][..i] == types[..i];
    if i + 1 < |types| {
      CountGrows(types, ty, i + 1);
    } else {
      assert types[..i + 1] == types;
    }
  }

  /** resolve_map_stream. `best` is the demuxer library's choice for a type. */
  method ResolveMapStream(types: seq<MediaType>, sel: Selector, best: MediaType -> Option<nat>) returns (r: Option<nat>)
    ensures sel.Absolute? ==> r == if sel.index < |types| then Some(sel.index) else None
    ensures sel.Best? ==> r == best(sel.ty)
    ensures sel.Kth? ==> (r.None? <==> Count(types, sel.ty) <= sel.k)
    ensures sel.Kth? && r.Some? ==>
      r.value < |types| && types[r.value] == sel.ty && Count(types[..r.value], sel.ty) == sel.k
  {
    match sel {
      case Absolute(index) => return if index < |types| then Some(index) else None;
      case Best(ty) => return best(ty);
      case Kth(ty, k) =>
        var count := 0;
        for i := 0 to |types|
          invariant count == Count(types[..i], ty) <= k
        {
          CountGrows(types, ty, i);
          if types[i] == ty {
            if count == k {
              return Some(i);
            }
            count := count + 1;
          }
        }
        assert types[..|types|] == types;
        r := None;
    }
  }
}
