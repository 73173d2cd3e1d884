/** The in-memory concat playlist: segment names quoted onto ffconcat lines. */
module Concat {
  import opened Basics

  type Text = seq<char>

  const QUOTE: char := '\''
  const BACKSLASH: char := '\\'

  const HEADER: Text := "ffconcat version 1.0\n"
  const FILE_OPEN: Text := "file '"
  const FILE_CLOSE: Text := "'\n"

  predicate Special(c: char) {
    c == QUOTE || c == BACKSLASH
  }

  /** One character inside a quoted argument: a quote or backslash closes the quotes, escapes
      itself and opens them again. */
  function Escaped(c: char): Text {
    if Special(c) then [QUOTE, BACKSLASH, c, QUOTE] else [c]
  }

  function Quoted(name: Text): Text {
    if name == [] then [] else Escaped(name[0]) + Quoted(name[1..])
  }

  predicate Safe(name: Text) {
    '\n' !in name && '\r' !in name
  }

  function Line(name: Text): Text {
    FILE_OPEN + Quoted(name) + FILE_CLOSE
  }

  function Lines(names: seq<Text>): Text {
    if names == [] then [] else Line(names[0]) + Lines(names[1..])
  }

  function Playlist(names: seq<Text>): Text {
    HEADER + Lines(names)
  }

  lemma {:induction false} QuotedConcat(a: Text, b: Text)
    ensures Quoted(a + b) == Quoted(a) + Quoted(b)
  {
    if a == [] {
      assert a + b == b;
    } else {
      assert (a + b)[1..] == a[1..] + b;
      QuotedConcat(a[1..], b);
    }
  }

  lemma QuotedStep(name: Text, p: nat)
    requires p < |name|
    ensures Quoted(name[..p + 1]) == Quoted(name[..p]) + Escaped(name[p])
    ensures |Quoted(name[..p + 1])| <= |Quoted(name)|
  {
    assert Quoted([name[p]]) == Escaped(name[p]) by {
      assert [name[p]][1..] == [];
    }
    hide Quoted, Escaped;
    assert name[..p + 1] == name[..p] + [name[p]] && name == name[..p + 1] + name[p + 1..];
    QuotedConcat(name[..p], [name[p]]);
    QuotedConcat(name[..p + 1], name[p + 1..]);
  }

  lemma {:induction false} LinesConcat(a: seq<Text>, b: seq<Text>)
    ensures Lines(a + b) == Lines(a) + Lines(b)
  {
    if a == [] {
      assert a + b == b;
    } else {
      assert (a + b)[1..] == a[1..] + b;
      LinesConcat(a[1..], b);
    }
  }

  lemma LinesStep(names: seq<Text>, i: nat)
    requires i < |names|
    ensures Lines(names[..i + 1]) == Lines(names[..i]) + Line(names[i])
    ensures |Lines(names[..i + 1])| <= |Lines(names)|
  {
    hide Line;
    assert Lines([names[i]]) == Line(names[i]) by {
      assert [names[i]][1..] == [];
    }
    hide Lines;
    assert names[..i + 1] == names[..i] + [names[i]] && names == names[..i + 1] + names[i + 1..];
    LinesConcat(names[..i], [names[i]]);
    LinesConcat(names[..i + 1], names[i + 1..]);
  }

  // ---- the printer ----------------------------------------------------------

  /** concat_quote_len. */
  method QuoteLength(name: Text) returns (len: nat)
    ensures len == |Quoted(name)|
  {
    len := 0;
    for p := 0 to |name|
      invariant len + |Quoted(name[p..])| == |Quoted(name)|
    {
      len := len + if Special(name[p]) then 4 else 1;
    }
  }

  /** Only dst[from..to] may differ from what it was. */
  twostate predicate OnlyWithin(dst: array<char>, from: nat, to: nat)
    reads dst
  {
    forall i :: 0 <= i < dst.Length && !(from <= i < to) ==> dst[i] == old(dst[i])
  }

  method Store(dst: array<char>, at: nat, t: Text)
    requires at + |t| <= dst.Length
    modifies dst
    ensures dst[at..at + |t|] == t && OnlyWithin(dst, at, at + |t|)
  {
    forall i | 0 <= i < |t| {
      dst[at + i] := t[i];
    }
  }

  lemma Joined(s: Text, a: nat, b: nat, c: nat)
    requires a <= b <= c <= |s|
    ensures s[a..c] == s[a..b] + s[b..c]
  {}

  method EscapeInto(dst: array<char>, at: nat, c: char) returns (end: nat)
    requires at + |Escaped(c)| <= dst.Length
    modifies dst
    ensures end == at + |Escaped(c)| && dst[at..end] == Escaped(c) && OnlyWithin(dst, at, end)
  {
    if c == QUOTE || c == BACKSLASH {
      dst[at], dst[at + 1], dst[at + 2], dst[at + 3] := QUOTE, BACKSLASH, c, QUOTE;
      end := at + 4;
    } else {
      dst[at] := c;
      end := at + 1;
    }
  }

  /** concat_quote: writes into dst from `at` and says how much it wrote. */
  method QuoteInto(dst: array<char>, at: nat, name: Text) returns (o: nat)
    requires at + |Quoted(name)| <= dst.Length
    modifies dst
    ensures o == |Quoted(name)|
    ensures dst[at..at + o] == Quoted(name) && OnlyWithin(dst, at, at + o)
  {
    var end := at;
    assert name[..0] == [] && name[..|name|] == name;
    assert Quoted(name[..0]) == [];
    hide Quoted, Escaped;
    for p := 0 to |name|
      invariant end == at + |Quoted(name[..p])| <= at + |Quoted(name)|
      invariant dst[at..end] == Quoted(name[..p]) && OnlyWithin(dst, at, end)
    {
      QuotedStep(name, p);
      ghost var done := dst[at..end];
      var next := EscapeInto(dst, end, name[p]);
      assert dst[at..end] == done;
      Joined(dst[..], at, end, next);
      end := next;
    }
    o := end - at;
  }

  /** What is stored right after dst[from..at] extends it. */
  method Extend(dst: array<char>, from: nat, at: nat, t: Text)
    requires from <= at && at + |t| <= dst.Length
    modifies dst
    ensures dst[from..at + |t|] == old(dst[from..at]) + t && OnlyWithin(dst, at, at + |t|)
  {
    ghost var done := dst[from..at];
    Store(dst, at, t);
    assert dst[from..at] == done;
    Joined(dst[..], from, at, at + |t|);
  }

  method StoreLine(text: array<char>, at: nat, name: Text) returns (end: nat)
    requires at + |Line(name)| <= text.Length
    modifies text
    ensures end == at + |Line(name)| && text[at..end] == Line(name) && OnlyWithin(text, at, end)
  {
    hide Quoted;
    Store(text, at, FILE_OPEN);
    end := at + |FILE_OPEN|;
    ghost var done := text[at..end];
    var q := QuoteInto(text, end, name);
    assert text[at..end] == done;
    Joined(text[..], at, end, end + q);
    end := end + q;
    Extend(text, at, end, FILE_CLOSE);
    end := end + |FILE_CLOSE|;
  }

  /** The playlist's length, if every name can be put on a line of its own. */
  method Measure(names: seq<Text>) returns (len: Option<nat>)
    ensures len.Some? <==> forall n <- names :: Safe(n)
    ensures len.Some? ==> len.value == |Playlist(names)|
  {
    var n := |HEADER|;
    assert Lines(names[..0]) == [] && names[..|names|] == names;
    hide Lines, Quoted;
    for i := 0 to |names|
      invariant n == |Playlist(names[..i])| && forall m <- names[..i] :: Safe(m)
    {
      if !Safe(names[i]) {
        return None;
      }
      var q := QuoteLength(names[i]);
      LinesStep(names, i);
      assert names[..i + 1] == names[..i] + [names[i]];
      n := n + |FILE_OPEN| + q + |FILE_CLOSE|;
    }
    len := Some(n);
  }

  lemma PlaylistStep(names: seq<Text>, i: nat)
    requires i < |names|
    ensures Playlist(names[..i + 1]) == Playlist(names[..i]) + Line(names[i])
    ensures |Playlist(names[..i + 1])| <= |Playlist(names)|
  {
    hide Line, Lines;
    LinesStep(names, i);
  }

  method StoreHeader(text: array<char>) returns (off: nat)
    requires |Playlist([])| <= text.Length
    modifies text
    ensures off == |Playlist([])| && text[..off] == Playlist([])
  {
    Store(text, 0, HEADER);
    off := |HEADER|;
  }

  method Fill(text: array<char>, names: seq<Text>) returns (off: nat)
    requires |Playlist(names)| <= text.Length
    modifies text
    ensures off == |Playlist(names)| && text[..off] == Playlist(names)
  {
    assert |Playlist([])| <= |Playlist(names)|;
    hide Playlist, Line;
    off := StoreHeader(text);
    assert names[..0] == [] && names[..|names|] == names;
    for i := 0 to |names|
      invariant off == |Playlist(names[..i])| <= |Playlist(names)| && text[..off] == Playlist(names[..i])
    {
      PlaylistStep(names, i);
      ghost var done := text[..off];
      var end := StoreLine(text, off, names[i]);
      assert text[..off] == done;
      Joined(text[..], 0, off, end);
      off := end;
    }
  }

  /** The playlist built in memory: sized first, then written, with the NUL the formatter leaves
      after it. A name that cannot be put on one line refuses the whole list. */
  method Build(names: seq<Text>) returns (text: array?<char>, off: nat)
    ensures text == null <==> exists n <- names :: '\n' in n || '\r' in n
    ensures text != null ==> fresh(text) && text.Length == off + 1 && text[..off] == Playlist(names)
  {
    var len := Measure(names);
    if len.None? {
      return null, 0;
    }
    text := new char[len.value + 1];
    off := Fill(text, names);
    text[off] := '\0';
  }

  // ---- the reader -------------------------------------------------------------

  predicate Space(c: char) {
    c == ' ' || c == '\t' || c == '\r' || c == '\n'
  }

  /** The ffconcat argument rules: inside single quotes everything is literal up to the next
      quote; outside them a backslash takes the next character as it is and space ends the
      argument. None is an argument that never closes its quotes. */
  function Argument(t: Text, quoted: bool): Option<Text> {
    if t == [] then (if quoted then None else Some([]))
    else if quoted then
      if t[0] == QUOTE then Argument(t[1..], false) else Prefixed(t[0], Argument(t[1..], true))
    else if t[0] == QUOTE then Argument(t[1..], true)
    else if t[0] == BACKSLASH && |t| > 1 then Prefixed(t[1], Argument(t[2..], false))
    else if Space(t[0]) then Some([])
    else Prefixed(t[0], Argument(t[1..], false))
  }

  function Prefixed(c: char, t: Option<Text>): Option<Text> {
    if t.Some? then Some([c] + t.value) else None
  }

  /** Where the first line of t ends. */
  function LineEnd(t: Text): (n: nat)
    ensures n <= |t| && '\n' !in t[..n] && (n < |t| ==> t[n] == '\n')
  {
    if t == [] || t[0] == '\n' then 0 else 1 + LineEnd(t[1..])
  }

  function ReadLines(t: Text): seq<Text>
    decreases |t|
  {
    if t == [] then []
    else
      var n := LineEnd(t);
      [t[..n]] + (if n < |t| then ReadLines(t[n + 1..]) else [])
  }

  /** The file names of the lines after the header. */
  function ReadFiles(lines: seq<Text>): Option<seq<Text>> {
    if lines == [] then Some([])
    else if !("file " <= lines[0]) then None
    else
      var (name, rest) := (Argument(lines[0][5..], false), ReadFiles(lines[1..]));
      if name.Some? && rest.Some? then Some([name.value] + rest.value) else None
  }

  function ReadPlaylist(t: Text): Option<seq<Text>> {
    var lines := ReadLines(t);
    if lines == [] || lines[0] != "ffconcat version 1.0" then None else ReadFiles(lines[1..])
  }

  /** Quoting is undone exactly, whatever the name contains. */
  lemma {:induction false} ArgumentOfQuoted(name: Text)
    ensures Argument(Quoted(name) + [QUOTE], true) == Some(name)
  {
    if name == [] {
      assert [QUOTE][1..] == [];
    } else {
      var c, rest := name[0], Quoted(name[1..]) + [QUOTE];
      ArgumentOfQuoted(name[1..]);
      assert Quoted(name) + [QUOTE] == Escaped(c) + rest && name == [c] + name[1..];
      EscapedUndone(c, rest);
    }
  }

  lemma EscapedUndone(c: char, rest: Text)
    ensures Argument(Escaped(c) + rest, true) == Prefixed(c, Argument(rest, true))
  {
    var t := Escaped(c) + rest;
    if Special(c) {
      assert t[1..] == [BACKSLASH, c, QUOTE] + rest;
      assert t[1..][2..] == [QUOTE] + rest;
      assert ([QUOTE] + rest)[1..] == rest;
      assert Argument(t[1..], false) == Prefixed(c, Argument(t[1..][2..], false));
      assert Argument(t[1..][2..], false) == Argument(rest, true);
    } else {
      assert t[1..] == rest;
    }
  }

  lemma {:induction false} LineEndIs(line: Text, rest: Text)
    requires '\n' !in line
    ensures LineEnd(line + "\n" + rest) == |line|
  {
    if line != [] {
      assert (line + "\n" + rest)[1..] == line[1..] + "\n" + rest;
      LineEndIs(line[1..], rest);
    }
  }

  lemma ReadOneLine(line: Text, rest: Text)
    requires '\n' !in line
    ensures ReadLines(line + "\n" + rest) == [line] + ReadLines(rest)
  {
    var t := line + "\n" + rest;
    LineEndIs(line, rest);
    assert t[..|line|] == line && t[|line| + 1..] == rest;
  }

  lemma {:induction false} QuotedIsOneLine(name: Text)
    requires Safe(name)
    ensures '\n' !in Quoted(name)
  {
    if name != [] {
      QuotedIsOneLine(name[1..]);
    }
  }

  /** A line without its newline names its file. */
  lemma LineNamesFile(name: Text)
    requires Safe(name)
    ensures var body := FILE_OPEN + Quoted(name) + [QUOTE];
      && Line(name) == body + "\n" && '\n' !in body
      && "file " <= body && Argument(body[5..], false) == Some(name)
  {
    QuotedIsOneLine(name);
    ArgumentOfQuoted(name);
    hide Quoted, Argument;
    var q := Quoted(name) + [QUOTE];
    assert FILE_OPEN + Quoted(name) + [QUOTE] == FILE_OPEN + q;
    OpensQuotes(q);
    assert Line(name) == FILE_OPEN + q + "\n";
  }

  lemma OpensQuotes(q: Text)
    ensures "file " <= FILE_OPEN + q && Argument((FILE_OPEN + q)[5..], false) == Argument(q, true)
  {
    assert (FILE_OPEN + q)[5..] == [QUOTE] + q && ([QUOTE] + q)[1..] == q;
  }

  /** A line that names its file reads as that file and whatever follows. */
  lemma ReadOneFile(body: Text, name: Text, rest: seq<Text>)
    requires "file " <= body && Argument(body[5..], false) == Some(name) && ReadFiles(rest).Some?
    ensures ReadFiles([body] + rest) == Some([name] + ReadFiles(rest).value)
  {
    hide Argument;
    assert ([body] + rest)[1..] == rest;
  }

  lemma {:induction false} ReadFilesOfLines(names: seq<Text>)
    requires forall n <- names :: Safe(n)
    ensures ReadFiles(ReadLines(Lines(names))) == Some(names)
  {
    if names != [] {
      var body, rest := FILE_OPEN + Quoted(names[0]) + [QUOTE], Lines(names[1..]);
      LineNamesFile(names[0]);
      assert Lines(names) == body + "\n" + rest;
      hide Quoted, Lines, Line, Argument, ReadLines, ReadFiles;
      ReadFilesOfLines(names[1..]);
      ReadOneLine(body, rest);
      ReadOneFile(body, names[0], ReadLines(rest));
      assert [names[0]] + names[1..] == names;
    }
  }

  /** Reading the playlist the engine builds returns its segment names, in order. */
  lemma PlaylistRoundTrip(names: seq<Text>)
    requires forall n <- names :: Safe(n)
    ensures ReadPlaylist(Playlist(names)) == Some(names)
  {
    var title := "ffconcat version 1.0";
    assert HEADER == title + "\n";
    assert Playlist(names) == title + "\n" + Lines(names);
    ReadOneLine(title, Lines(names));
    ReadFilesOfLines(names);
    assert ([title] + ReadLines(Lines(names)))[1..] == ReadLines(Lines(names));
  }
}
