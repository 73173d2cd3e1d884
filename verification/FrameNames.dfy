/** Naming the still images of a frames job: the printf template, its expansion, and why no two
    frames of a job share a path. */
module FrameNames {
  import opened Basics

  // ---- the template -----------------------------------------------------------

  /** One integer conversion: its flags, width, precision and letter. */
  datatype Conversion = Conversion(flags: string, width: nat, precision: Option<nat>, letter: char)

  datatype Piece = Literal(c: char) | Index(conv: Conversion)

  predicate Flag(c: char) {
    c == '-' || c == '+' || c == ' ' || c == '0' || c == '#'
  }

  predicate IntegerLetter(c: char) {
    c == 'd' || c == 'i' || c == 'u' || c == 'x' || c == 'X' || c == 'o'
  }

  function FlagRun(s: string): (n: nat)
    ensures n <= |s| && (n < |s| ==> !Flag(s[n]))
  {
    if s == [] || !Flag(s[0]) then 0 else 1 + FlagRun(s[1..])
  }

  function DigitRun(s: string): (n: nat)
    ensures n <= |s| && Digits(s[..n]) && (n < |s| ==> !Digit(s[n]))
  {
    if s == [] || !Digit(s[0]) then 0 else 1 + DigitRun(s[1..])
  }

  /** An optional precision, and the text behind it; a bare point means zero. */
  function ReadPrecision(t: string): (r: (Option<nat>, string))
    ensures |r.1| <= |t|
  {
    if t == [] || t[0] != '.' then (None, t)
    else
      var p := DigitRun(t[1..]);
      (Some(Decimal(t[1..][..p])), t[1..][p..])
  }

  // A conversion and the text behind it.
  datatype Read = Read(conv: Conversion, rest: string)

  /** What follows a single percent sign: flags, width, precision, and an integer letter. */
  function ReadConversion(s: string): (r: Option<Read>)
    ensures r.Some? ==> |r.value.rest| < |s| && IntegerLetter(r.value.conv.letter)
  {
    var f := FlagRun(s);
    var w := DigitRun(s[f..]);
    var t := s[f..][w..];
    var (precision, u) := ReadPrecision(t);
    if u == [] || !IntegerLetter(u[0]) then None
    else Some(Read(Conversion(s[..f], Decimal(s[f..][..w]), precision, u[0]), u[1..]))
  }

  /** The first piece of a template, and the text behind it. */
  function FirstPiece(s: string): (r: Option<(Piece, string)>)
    requires s != []
    ensures r.Some? ==> |r.value.1| < |s| && (r.value.0.Index? ==> IntegerLetter(r.value.0.conv.letter))
  {
    if s[0] != '%' then Some((Literal(s[0]), s[1..]))
    else if |s| > 1 && s[1] == '%' then Some((Literal('%'), s[2..]))
    else
      var r := ReadConversion(s[1..]);
      if r.None? then None else Some((Index(r.value.conv), r.value.rest))
  }

  /** The pieces of a template; None if it holds anything but integer conversions. */
  function Pieces(s: string): (ps: Option<seq<Piece>>)
    ensures ps.Some? ==> Sound(ps.value)
    decreases |s|
  {
    if s == [] then Some([])
    else
      var first := FirstPiece(s);
      if first.None? then None else Before(first.value.0, Pieces(first.value.1))
  }

  /** Every conversion ends in an integer letter. */
  ghost predicate Sound(ps: seq<Piece>) {
    forall p <- ps :: p.Index? ==> IntegerLetter(p.conv.letter)
  }

  function Before(p: Piece, ps: Option<seq<Piece>>): Option<seq<Piece>> {
    if ps.None? then None else Some([p] + ps.value)
  }

  function Tokens(ps: seq<Piece>): nat {
    if ps == [] then 0 else (if ps[0].Index? then 1 else 0) + Tokens(ps[1..])
  }

  lemma PiecesStep(s: string)
    requires s != []
    ensures var first := FirstPiece(s);
      if first.None? then Pieces(s).None?
      else
        && Pieces(s).Some? == Pieces(first.value.1).Some?
        && (Pieces(s).Some? ==>
              Tokens(Pieces(s).value) == (if first.value.0.Index? then 1 else 0) + Tokens(Pieces(first.value.1).value))
  {}

  /** template_int_conversions: how many integer conversions, or -1 for any other kind. */
  method CountConversions(t: string) returns (n: int)
    ensures n == if Pieces(t).None? then -1 else Tokens(Pieces(t).value)
  {
    hide Pieces, Tokens, ReadConversion, Sound;
    n := 0;
    var p := 0;
    assert t[0..] == t;
    while p < |t|
      invariant 0 <= n && p <= |t|
      invariant Pieces(t[p..]).Some? == Pieces(t).Some?
      invariant Pieces(t).Some? ==> n + Tokens(Pieces(t[p..]).value) == Tokens(Pieces(t).value)
    {
      PiecesStep(t[p..]);
      DropDrop(t, p, 1);
      if t[p] != '%' {
        p := p + 1;
        continue;
      }
      p := p + 1;
      if p < |t| && t[p] == '%' {
        DropDrop(t, p - 1, 2);
        p := p + 1;
        continue;
      }
      var end := EndOfConversion(t, p);
      if end.None? {
        return -1;
      }
      n, p := n + 1, end.value;
    }
    NoPieces();
    assert t[p..] == [];
  }

  lemma NoPieces()
    ensures Pieces([]) == Some([]) && Tokens([]) == 0
  {}

  lemma DropDrop<T>(t: seq<T>, p: nat, k: nat)
    requires p + k <= |t|
    ensures t[p..][k..] == t[p + k..]
  {}

  /** What is left of a conversion behind its flags and width decides it. */
  lemma ConversionParts(s: string, f: nat, w: nat)
    requires f <= |s| && f == FlagRun(s) && w <= |s[f..]| && w == DigitRun(s[f..])
    ensures var u := ReadPrecision(s[f..][w..]).1;
      && (ReadConversion(s).Some? <==> u != [] && IntegerLetter(u[0]))
      && (ReadConversion(s).Some? ==> ReadConversion(s).value.rest == u[1..])
  {
    hide FlagRun, DigitRun, Decimal, ReadPrecision, IntegerLetter;
  }

  /** Walks flags, width, precision and letter from position p; the position behind the letter. */
  method EndOfConversion(t: string, p: nat) returns (end: Option<nat>)
    requires p <= |t|
    ensures end.Some? <==> ReadConversion(t[p..]).Some?
    ensures end.Some? ==> p < end.value <= |t| && t[end.value..] == ReadConversion(t[p..]).value.rest
  {
    hide FlagRun, DigitRun, Decimal, ReadPrecision, ReadConversion, IntegerLetter;
    var f := SkipFlags(t, p);
    var w := SkipDigits(t, f);
    DropDrop(t, p, f - p);
    DropDrop(t, f, w - f);
    var q := SkipPrecision(t, w);
    ConversionParts(t[p..], f - p, w - f);
    if q < |t| && IntegerLetter(t[q]) {
      DropDrop(t, q, 1);
      return Some(q + 1);
    }
    end := None;
  }

  method SkipPrecision(t: string, p: nat) returns (q: nat)
    requires p <= |t|
    ensures p <= q <= |t| && t[q..] == ReadPrecision(t[p..]).1
  {
    hide DigitRun, Decimal;
    q := p;
    if p < |t| && t[p] == '.' {
      q := SkipDigits(t, p + 1);
      DropDrop(t, p, 1);
      DropDrop(t, p + 1, q - (p + 1));
    }
  }

  method SkipFlags(t: string, p: nat) returns (q: nat)
    requires p <= |t|
    ensures p <= q <= |t| && q - p == FlagRun(t[p..])
  {
    q := p;
    while q < |t| && Flag(t[q])
      invariant p <= q <= |t| && FlagRun(t[p..]) == q - p + FlagRun(t[q..])
    {
      q := q + 1;
    }
  }

  method SkipDigits(t: string, p: nat) returns (q: nat)
    requires p <= |t|
    ensures p <= q <= |t| && q - p == DigitRun(t[p..])
  {
    q := p;
    while q < |t| && '0' <= t[q] <= '9'
      invariant p <= q <= |t| && DigitRun(t[p..]) == q - p + DigitRun(t[q..])
    {
      q := q + 1;
    }
  }

  // ---- a template written and read ------------------------------------------------

  /** What a template can spell: flags that are flags, and an integer letter. */
  predicate Spellable(conv: Conversion) {
    (forall c <- conv.flags :: Flag(c)) && IntegerLetter(conv.letter)
  }

  function ShowWidth(w: nat): string {
    if w == 0 then "" else Print(w)
  }

  function ShowPrecision(p: Option<nat>): string {
    if p.None? then "" else "." + Print(p.value)
  }

  /** A piece as a template spells it: a percent sign stands for itself when doubled. */
  function Show(p: Piece): string {
    match p
    case Literal(c) => if c == '%' then "%%" else [c]
    case Index(conv) =>
      "%" + (conv.flags + (ShowWidth(conv.width) + (ShowPrecision(conv.precision) + [conv.letter])))
  }

  function ShowAll(ps: seq<Piece>): string {
    if ps == [] then [] else Show(ps[0]) + ShowAll(ps[1..])
  }

  lemma {:induction false} FlagsEnd(flags: string, rest: string)
    requires (forall c <- flags :: Flag(c)) && rest != [] && !Flag(rest[0])
    ensures FlagRun(flags + rest) == |flags|
  {
    if flags == [] {
      assert flags + rest == rest;
    } else {
      assert flags[0] in flags && (flags + rest)[1..] == flags[1..] + rest;
      FlagsEnd(flags[1..], rest);
    }
  }

  lemma {:induction false} DigitsEnd(ds: string, rest: string)
    requires Digits(ds) && rest != [] && !Digit(rest[0])
    ensures DigitRun(ds + rest) == |ds|
  {
    if ds == [] {
      assert ds + rest == rest;
    } else {
      assert ds[0] in ds && (ds + rest)[1..] == ds[1..] + rest;
      DigitsEnd(ds[1..], rest);
    }
  }

  /** A numeral of a positive number does not start with the zero flag. */
  lemma {:induction false} NoLeadingZero(n: nat)
    requires n > 0
    ensures Print(n)[0] != '0'
  {
    if n >= 10 {
      NoLeadingZero(n / 10);
    }
  }

  lemma PrecisionReads(p: Option<nat>, letter: char, rest: string)
    requires IntegerLetter(letter)
    ensures ReadPrecision(ShowPrecision(p) + ([letter] + rest)) == (p, [letter] + rest)
  {
    hide DigitRun, Decimal, Print;
    var u := [letter] + rest;
    var t := ShowPrecision(p) + u;
    if p.Some? {
      var ds := Print(p.value);
      DigitsEnd(ds, u);
      assert t[1..] == ds + u && (ds + u)[..|ds|] == ds && (ds + u)[|ds|..] == u;
    } else {
      assert t == u;
    }
  }

  lemma WidthReads(w: nat, u: string)
    requires u != [] && !Digit(u[0]) && !Flag(u[0])
    ensures var t := ShowWidth(w) + u;
      && !Flag(t[0])
      && DigitRun(t) == |ShowWidth(w)|
      && t[DigitRun(t)..] == u && Digits(t[..DigitRun(t)]) && Decimal(t[..DigitRun(t)]) == w
  {
    hide DigitRun, Print;
    DigitsEnd(ShowWidth(w), u);
    if w > 0 {
      NoLeadingZero(w);
    }
    var t := ShowWidth(w) + u;
    assert t[..|ShowWidth(w)|] == ShowWidth(w) && t[|ShowWidth(w)|..] == u;
    assert w == 0 ==> t == u;
    if w > 0 {
      assert t[0] == Print(w)[0] && Print(w)[0] in Print(w);
    }
  }

  lemma ConversionReads(conv: Conversion, rest: string)
    requires Spellable(conv)
    ensures var s := conv.flags + (ShowWidth(conv.width) + (ShowPrecision(conv.precision) + ([conv.letter] + rest)));
            s[0] != '%' && ReadConversion(s) == Some(Read(conv, rest))
  {
    hide FlagRun, DigitRun, Decimal, Print, ReadPrecision, ShowWidth;
    var end := [conv.letter] + rest;
    var u := ShowPrecision(conv.precision) + end;
    var t := ShowWidth(conv.width) + u;
    var s := conv.flags + t;
    PrecisionReads(conv.precision, conv.letter, rest);
    WidthReads(conv.width, u);
    FlagsEnd(conv.flags, t);
    FirstIsFlagOrWidth(conv, u);
    assert s[..|conv.flags|] == conv.flags && s[|conv.flags|..] == t && end[1..] == rest;
  }

  lemma FirstIsFlagOrWidth(conv: Conversion, u: string)
    requires Spellable(conv) && u != [] && u[0] != '%'
    ensures (conv.flags + (ShowWidth(conv.width) + u))[0] != '%'
  {
    if conv.flags != [] {
      assert conv.flags[0] in conv.flags;
    } else if conv.width > 0 {
      assert Print(conv.width)[0] in Print(conv.width);
    }
  }

  lemma Regroup(a: string, b: string, c: string, d: string, rest: string)
    ensures "%" + (a + (b + (c + d))) + rest == "%" + (a + (b + (c + (d + rest))))
  {
    assert (c + d) + rest == c + (d + rest);
    assert (b + (c + d)) + rest == b + (c + (d + rest));
    assert (a + (b + (c + d))) + rest == a + (b + (c + (d + rest)));
  }

  lemma FirstIndexReads(conv: Conversion, rest: string)
    requires Spellable(conv)
    ensures FirstPiece(Show(Index(conv)) + rest) == Some((Index(conv), rest))
  {
    ConversionReads(conv, rest);
    Regroup(conv.flags, ShowWidth(conv.width), ShowPrecision(conv.precision), [conv.letter], rest);
    hide ReadConversion, ShowWidth, ShowPrecision, Spellable;
    var tail := conv.flags + (ShowWidth(conv.width) + (ShowPrecision(conv.precision) + ([conv.letter] + rest)));
    var s := "%" + tail;
    assert s[0] == '%' && s[1] == tail[0] && s[1..] == tail;
  }

  lemma FirstLiteralReads(c: char, rest: string)
    ensures FirstPiece(Show(Literal(c)) + rest) == Some((Literal(c), rest))
  {
    hide ReadConversion;
    var s := Show(Literal(c)) + rest;
    assert s[|Show(Literal(c))|..] == rest;
  }

  /** A template reads as the pieces it spells, every percent sign, flag, width and precision of
      them; so it counts as many conversions as were written. */
  lemma {:induction false} TemplateReads(ps: seq<Piece>)
    requires forall p <- ps :: p.Index? ==> Spellable(p.conv)
    ensures Pieces(ShowAll(ps)) == Some(ps)
  {
    hide FirstPiece, Show;
    if ps != [] {
      assert ps[0] in ps && ps == [ps[0]] + ps[1..];
      if ps[0].Literal? {
        FirstLiteralReads(ps[0].c, ShowAll(ps[1..]));
      } else {
        FirstIndexReads(ps[0].conv, ShowAll(ps[1..]));
      }
      ShowIsSome(ps[0]);
      TemplateReads(ps[1..]);
    }
  }

  lemma ShowIsSome(p: Piece)
    ensures Show(p) != []
  {}

  // ---- the expansion ------------------------------------------------------------

  function Base(letter: char): nat {
    if letter == 'x' || letter == 'X' then 16 else if letter == 'o' then 8 else 10
  }

  /** The digit's character. */
  function Glyph(d: nat, upper: bool): char
    requires d < 16
  {
    if d < 10 then ('0' as int + d) as char
    else if upper then ('A' as int + d - 10) as char else ('a' as int + d - 10) as char
  }

  /** The digits of v, none for zero. */
  function Numerals(base: nat, v: nat, upper: bool): string
    requires 2 <= base <= 16
  {
    if v == 0 then [] else Numerals(base, v / base, upper) + [Glyph(v % base, upper)]
  }

  function Repeat(c: char, n: int): string {
    if n <= 0 then [] else [c] + Repeat(c, n - 1)
  }

  /** The digits with the zeros that precision (one, if none is given) and an octal '#' ask for. */
  function Body(conv: Conversion, v: nat): string {
    var ds := Numerals(Base(conv.letter), v, conv.letter == 'X');
    var least := if conv.precision.Some? then conv.precision.value else 1;
    var padded := Repeat('0', least - |ds|) + ds;
    if '#' in conv.flags && conv.letter == 'o' && (padded == [] || padded[0] != '0') then ['0'] + padded else padded
  }

  /** A sign for a signed conversion that asks for one, or the prefix of a non-zero '#' hex. */
  function Prefix(conv: Conversion, v: nat): string {
    if conv.letter == 'd' || conv.letter == 'i' then
      if '+' in conv.flags then "+" else if ' ' in conv.flags then " " else ""
    else if '#' in conv.flags && v != 0 && conv.letter == 'x' then "0x"
    else if '#' in conv.flags && v != 0 && conv.letter == 'X' then "0X"
    else ""
  }

  /** printf's integer conversion of a non-negative value, section 7.21.6.1 of C11. */
  function Format(conv: Conversion, v: nat): string {
    var (prefix, body) := (Prefix(conv, v), Body(conv, v));
    var gap := conv.width - |prefix| - |body|;
    if '-' in conv.flags then prefix + body + Repeat(' ', gap)
    else if '0' in conv.flags && conv.precision.None? then prefix + Repeat('0', gap) + body
    else Repeat(' ', gap) + prefix + body
  }

  function Expand(ps: seq<Piece>, v: nat): string {
    if ps == [] then []
    else (match ps[0] case Literal(c) => [c] case Index(conv) => Format(conv, v)) + Expand(ps[1..], v)
  }

  /** The value fills its field and never loses a character to it; padding goes behind with '-', and
      in front otherwise. */
  lemma FormatFills(conv: Conversion, v: nat)
    ensures var (f, text) := (Format(conv, v), Prefix(conv, v) + Body(conv, v));
      && |f| == (if |text| < conv.width then conv.width else |text|)
      && ('-' in conv.flags ==> text <= f)
      && ('-' !in conv.flags ==> Body(conv, v) == f[|f| - |Body(conv, v)|..])
  {
    hide Prefix, Body;
    var gap := conv.width - |Prefix(conv, v)| - |Body(conv, v)|;
    RepeatLength(' ', gap);
    RepeatLength('0', gap);
  }

  lemma {:induction false} RepeatLength(c: char, n: int)
    ensures |Repeat(c, n)| == (if n < 0 then 0 else n) && forall x <- Repeat(c, n) :: x == c
  {
    if n > 0 {
      RepeatLength(c, n - 1);
    }
  }

  lemma PaddingExamples()
    ensures Format(Conversion("0", 3, None, 'd'), 7) == "007" && Format(Conversion("0", 3, Some(2), 'd'), 7) == " 07"
    ensures Format(Conversion("", 3, None, 'd'), 7) == "  7" && Format(Conversion("-", 3, None, 'd'), 7) == "7  "
  {
    SevenPadded("0", 3);
    SevenPadded("", 3);
    SevenPadded("-", 3);
    hide Body;
    assert Repeat('0', 2) == "00" && Repeat(' ', 2) == "  " && Repeat(' ', 1) == " ";
  }

  lemma SevenPadded(flags: string, w: nat)
    ensures Body(Conversion(flags, w, None, 'd'), 7) == "7" && Body(Conversion(flags, w, Some(2), 'd'), 7) == "07"
  {
    hide Numerals;
    OneNumeral(10, 7);
    assert Repeat('0', 0) == "" && Repeat('0', 1) == "0";
  }

  lemma PrefixExamples()
    ensures Format(Conversion("+", 0, None, 'd'), 7) == "+7" && Format(Conversion("+", 0, None, 'u'), 7) == "7"
    ensures Format(Conversion("#", 0, None, 'x'), 7) == "0x7" && Format(Conversion("#", 0, None, 'X'), 7) == "0X7"
    ensures Format(Conversion("#", 0, None, 'o'), 7) == "07"
  {
    Seven("+", 'd');
    Seven("+", 'u');
    Seven("#", 'x');
    Seven("#", 'X');
    Seven("#", 'o');
    hide Body;
  }

  lemma Seven(flags: string, letter: char)
    ensures Body(Conversion(flags, 0, None, letter), 7) == if letter == 'o' && '#' in flags then "07" else "7"
  {
    hide Numerals;
    OneNumeral(Base(letter), 7);
    assert Repeat('0', 0) == "";
  }

  lemma ZeroExamples()
    ensures Format(Conversion("", 0, None, 'd'), 0) == "0" && Format(Conversion("", 0, Some(0), 'd'), 0) == ""
    ensures Format(Conversion("#", 0, None, 'x'), 0) == "0"
  {
    assert Repeat('0', 1) == "0" && Repeat(' ', 0) == "";
  }

  lemma OneNumeral(base: nat, d: nat)
    requires 2 <= base <= 16 && 0 < d < base && d < 10
    ensures forall upper :: Numerals(base, d, upper) == [('0' as int + d) as char]
  {
    assert d / base == 0 && d % base == d;
  }

  // ---- one index, one text ------------------------------------------------------

  /** The value of a character as a digit of the base; None for anything else. */
  function DigitValue(base: nat, c: char): Option<nat> {
    var d := if '0' <= c <= '9' then c as int - '0' as int
             else if 'a' <= c <= 'f' then c as int - 'a' as int + 10
             else if 'A' <= c <= 'F' then c as int - 'A' as int + 10
             else 16;
    if d < base then Some(d) else None
  }

  /** One more digit behind a value. */
  function Shifted(v: nat, base: nat, d: nat): (r: nat) {
    NonNegative(v, base);
    v * base + d
  }

  lemma NonNegative(a: nat, b: nat)
    ensures a * b >= 0
  {}

  /** Reads the digits of a text in order, from a value already read, and ignores all else. */
  function Value(base: nat, from: nat, s: string): nat {
    if s == [] then from
    else
      var d := DigitValue(base, s[|s| - 1]);
      var init := Value(base, from, s[..|s| - 1]);
      if d.None? then init else Shifted(init, base, d.value)
  }

  lemma {:induction false} ValueConcat(base: nat, from: nat, a: string, b: string)
    ensures Value(base, from, a + b) == Value(base, Value(base, from, a), b)
  {
    if b == [] {
      assert a + b == a;
    } else {
      var n := |b| - 1;
      assert (a + b)[..|a| + n] == a + b[..n];
      ValueConcat(base, from, a, b[..n]);
    }
  }

  lemma {:induction false} ValueOfNumerals(base: nat, v: nat, upper: bool)
    requires base in {8, 10, 16}
    ensures Value(base, 0, Numerals(base, v, upper)) == v
    decreases v
  {
    hide Glyph, DigitValue, Shifted, Numerals;
    NumeralsStep(base, v, upper);
    if v > 0 {
      LastDigit(base, v);
      GlyphReads(base, v % base, upper);
      var (high, s) := (Numerals(base, v / base, upper), Numerals(base, v, upper));
      assert s[..|s| - 1] == high;
      ValueOfNumerals(base, v / base, upper);
    }
  }

  lemma NumeralsStep(base: nat, v: nat, upper: bool)
    requires 2 <= base <= 16
    ensures Numerals(base, v, upper) ==
      if v == 0 then [] else Numerals(base, v / base, upper) + [Glyph(v % base, upper)]
  {
    hide Glyph;
  }

  lemma LastDigit(base: nat, v: nat)
    requires base in {8, 10, 16} && v > 0
    ensures v / base < v && v % base < base && Shifted(v / base, base, v % base) == v
  {}

  lemma GlyphReads(base: nat, d: nat, upper: bool)
    requires base <= 16 && d < base
    ensures DigitValue(base, Glyph(d, upper)) == Some(d)
  {}

  /** Spaces add nothing anywhere, and zeros nothing in front. */
  lemma {:induction false} ValueOfPadding(base: nat, from: nat, c: char, n: int)
    requires base in {8, 10, 16} && (c == ' ' || (c == '0' && from == 0))
    ensures Value(base, from, Repeat(c, n)) == from
    decreases n
  {
    if n > 0 {
      ValueOfPadding(base, from, c, n - 1);
      ValueConcat(base, from, [c], Repeat(c, n - 1));
      ValueOfOne(base, from, c);
    }
  }

  lemma ValueOfOne(base: nat, from: nat, c: char)
    ensures var d := DigitValue(base, c);
            Value(base, from, [c]) == if d.None? then from else Shifted(from, base, d.value)
  {
    assert [c][..0] == [];
  }

  lemma ValueOfBody(conv: Conversion, v: nat)
    requires IntegerLetter(conv.letter)
    ensures Value(Base(conv.letter), 0, Body(conv, v)) == v
  {
    hide Value, Numerals, Repeat;
    var base, upper := Base(conv.letter), conv.letter == 'X';
    var ds := Numerals(base, v, upper);
    var least := if conv.precision.Some? then conv.precision.value else 1;
    var zeros := Repeat('0', least - |ds|);
    ValueOfNumerals(base, v, upper);
    ValueOfPadding(base, 0, '0', least - |ds|);
    ValueConcat(base, 0, zeros, ds);
    ValueConcat(base, 0, ['0'], zeros + ds);
    ValueOfOne(base, 0, '0');
  }

  lemma ValueOfPrefix(conv: Conversion, v: nat)
    requires IntegerLetter(conv.letter)
    ensures Value(Base(conv.letter), 0, Prefix(conv, v)) == 0
  {
    hide Value;
    var p, base := Prefix(conv, v), Base(conv.letter);
    if |p| == 2 {
      assert p == ['0'] + [p[1]];
      ValueConcat(base, 0, ['0'], [p[1]]);
      ValueOfOne(base, 0, '0');
      ValueOfOne(base, 0, p[1]);
    } else if |p| == 1 {
      assert p == [p[0]];
      ValueOfOne(base, 0, p[0]);
    } else {
      assert p == [];
      ValueOfNothing(base, 0);
    }
  }

  lemma ValueOfNothing(base: nat, from: nat)
    ensures Value(base, from, []) == from
  {}

  /** Whatever the flags, width, precision and radix, the formatted text still says which index it
      was made from. */
  lemma FormatTellsIndex(conv: Conversion, v: nat)
    requires IntegerLetter(conv.letter)
    ensures Value(Base(conv.letter), 0, Format(conv, v)) == v
  {
    hide Body, Prefix, Value, Repeat;
    var base, prefix, body := Base(conv.letter), Prefix(conv, v), Body(conv, v);
    var gap := conv.width - |prefix| - |body|;
    ValueOfBody(conv, v);
    ValueOfPrefix(conv, v);
    ValueOfPadding(base, v, ' ', gap);
    ValueOfPadding(base, 0, ' ', gap);
    ValueOfPadding(base, 0, '0', gap);
    ValueConcat(base, 0, prefix, body);
    ValueConcat(base, 0, prefix + body, Repeat(' ', gap));
    ValueConcat(base, 0, prefix, Repeat('0', gap));
    ValueConcat(base, 0, prefix + Repeat('0', gap), body);
    ValueConcat(base, 0, Repeat(' ', gap), prefix);
    ValueConcat(base, 0, Repeat(' ', gap) + prefix, body);
  }

  lemma {:induction false} ExpandWithoutTokens(ps: seq<Piece>, a: nat, b: nat)
    requires Tokens(ps) == 0
    ensures Expand(ps, a) == Expand(ps, b)
  {
    if ps != [] {
      ExpandWithoutTokens(ps[1..], a, b);
    }
  }

  lemma Cancel(a: string, b: string, r: string)
    requires a + r == b + r
    ensures a == b
  {
    assert |a| == |b|;
    assert (a + r)[..|a|] == a && (b + r)[..|b|] == b;
  }

  /** A template with one conversion expands differently for every index. */
  lemma {:induction false} ExpandIsInjective(ps: seq<Piece>, a: nat, b: nat)
    requires Sound(ps) && Tokens(ps) == 1 && Expand(ps, a) == Expand(ps, b)
    ensures a == b
  {
    hide Format;
    var rest := ps[1..];
    match ps[0] {
      case Literal(c) =>
        assert Expand(ps, a)[1..] == Expand(rest, a) && Expand(ps, b)[1..] == Expand(rest, b);
        ExpandIsInjective(rest, a, b);
      case Index(conv) =>
        assert ps[0] in ps;
        ExpandWithoutTokens(rest, a, b);
        Cancel(Format(conv, a), Format(conv, b), Expand(rest, a));
        FormatTellsIndex(conv, a);
        FormatTellsIndex(conv, b);
    }
  }

  // ---- the path ---------------------------------------------------------------------

  const PATH_BUFFER: nat := 1024

  /** expand_path: refused, never shortened, when the result does not fit. */
  function ExpandPath(tmpl: string, ntok: nat, index: nat): (path: Option<string>)
    ensures path.Some? ==> |path.value| < PATH_BUFFER
  {
    var text := if ntok == 1 && Pieces(tmpl).Some? then Expand(Pieces(tmpl).value, index) else tmpl;
    if |text| >= PATH_BUFFER then None else Some(text)
  }

  lemma SamePathSameIndex(tmpl: string, i: nat, j: nat)
    requires Pieces(tmpl).Some? && Tokens(Pieces(tmpl).value) == 1
    requires ExpandPath(tmpl, 1, i).Some? && ExpandPath(tmpl, 1, i) == ExpandPath(tmpl, 1, j)
    ensures i == j
  {
    ExpandIsInjective(Pieces(tmpl).value, i, j);
  }
}
