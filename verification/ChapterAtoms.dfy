/** The chapters of a Matroska file, section 5.1.7 of RFC 9559: written as nested atoms, and read
    back. */
module ChapterAtoms {
  import opened Basics
  import opened Wire
  import opened Ebml

  const CHAPTERS: Id := [0x10, 0x43, 0xA7, 0x70]
  const EDITION: Id := [0x45, 0xB9]
  const EDITION_UID: Id := [0x45, 0xBC]
  const ATOM: Id := [0xB6]
  const CHAP_UID: Id := [0x73, 0xC4]
  const CHAP_START: Id := [0x91]
  const CHAP_END: Id := [0x92]
  const CHAP_DISPLAY: Id := [0x80]
  const CHAP_STRING: Id := [0x85]
  const CHAP_LANGUAGE: Id := [0x43, 0x7C]

  const MAX_SECONDS: int := 3600

  datatype Chapter = Chapter(start: real, end: real, title: seq<byte>) {
    predicate Usable() {
      0.0 <= start <= end <= MAX_SECONDS as real
    }
  }

  const TITLE_ROOM: int := TWO56 / 4

  /** More than the chapter atoms take. */
  function AtomRoom(chapters: seq<Chapter>): nat {
    if chapters == [] then 0
    else AtomRoom(chapters[..|chapters| - 1]) + |chapters[|chapters| - 1].title| + 128
  }

  /** Seconds as whole nanoseconds: the conversion truncates. */
  function Nanos(seconds: real): (ns: nat)
    requires 0.0 <= seconds <= MAX_SECONDS as real
    ensures ns < TWO64 && ns as real <= seconds * 1_000_000_000.0 < (ns + 1) as real
  {
    (seconds * 1_000_000_000.0).Floor
  }

  // ---- what is written ----------------------------------------------------------

  function Display(title: seq<byte>): (bs: seq<byte>)
    requires |title| < TITLE_ROOM
    ensures |bs| <= |title| + 32
  {
    El(CHAP_STRING, title) + El(CHAP_LANGUAGE, [0x65, 0x6E, 0x67])
  }

  function AtomPayload(uid: nat, c: Chapter): (bs: seq<byte>)
    requires c.Usable() && uid < TWO64 && |c.title| < TITLE_ROOM
    ensures |bs| <= |c.title| + 100
  {
    UintEl(CHAP_UID, uid)
    + (UintEl(CHAP_START, Nanos(c.start)) + (UintEl(CHAP_END, Nanos(c.end)) + El(CHAP_DISPLAY, Display(c.title))))
  }

  predicate AllUsable(chapters: seq<Chapter>) {
    forall i :: 0 <= i < |chapters| ==> chapters[i].Usable()
  }

  predicate Fit(chapters: seq<Chapter>) {
    AllUsable(chapters) && AtomRoom(chapters) < TITLE_ROOM
  }

  lemma {:induction false} FitParts(chapters: seq<Chapter>)
    requires Fit(chapters) && chapters != []
    ensures var n := |chapters|;
      && Fit(chapters[..n - 1]) && chapters[n - 1].Usable() && |chapters[n - 1].title| < TITLE_ROOM && n < TITLE_ROOM
  {
    RoomCounts(chapters);
  }

  lemma {:induction false} RoomCounts(chapters: seq<Chapter>)
    ensures |chapters| <= AtomRoom(chapters)
  {
    if chapters != [] {
      RoomCounts(chapters[..|chapters| - 1]);
    }
  }

  /** The chapter atoms, numbered from one. */
  function AllAtoms(chapters: seq<Chapter>): (bs: seq<byte>)
    requires Fit(chapters)
    ensures |bs| <= AtomRoom(chapters)
  {
    if chapters == [] then []
    else
      var n := |chapters|;
      FitParts(chapters);
      AllAtoms(chapters[..n - 1]) + El(ATOM, AtomPayload(n, chapters[n - 1]))
  }

  function Edition(chapters: seq<Chapter>): (bs: seq<byte>)
    requires Fit(chapters)
    ensures |bs| < TWO56 / 3
  {
    UintEl(EDITION_UID, 1) + AllAtoms(chapters)
  }

  method Atom(uid: nat, c: Chapter) returns (bs: seq<byte>)
    requires c.Usable() && uid < TWO64 && |c.title| < TITLE_ROOM
    ensures bs == El(ATOM, AtomPayload(uid, c))
  {
    hide El, UintEl;
    var (start, end) := ((c.start * 1_000_000_000.0).Floor, (c.end * 1_000_000_000.0).Floor);
    var display := El(CHAP_STRING, c.title) + El(CHAP_LANGUAGE, [0x65, 0x6E, 0x67]);
    var times := UintEl(CHAP_START, start) + (UintEl(CHAP_END, end) + El(CHAP_DISPLAY, display));
    bs := El(ATOM, UintEl(CHAP_UID, uid) + times);
  }

  /** The loop over the chapters. */
  method Atoms(chapters: seq<Chapter>) returns (atoms: seq<byte>)
    requires Fit(chapters)
    ensures atoms == AllAtoms(chapters)
  {
    hide El, AtomPayload, Fit, AtomRoom;
    atoms := [];
    AllFit(chapters, 0);
    NoAtoms();
    for i := 0 to |chapters|
      invariant Fit(chapters[..i]) && atoms == AllAtoms(chapters[..i])
    {
      AllFit(chapters, i + 1);
      FitParts(chapters[..i + 1]);
      assert chapters[..i + 1][..i] == chapters[..i];
      var atom := Atom(i + 1, chapters[i]);
      atoms := atoms + atom;
    }
    assert chapters[..|chapters|] == chapters;
  }

  lemma NoAtoms()
    ensures AllAtoms([]) == []
  {}

  lemma {:induction false} AllFit(chapters: seq<Chapter>, i: nat)
    requires Fit(chapters) && i <= |chapters|
    ensures Fit(chapters[..i])
    decreases |chapters| - i
  {
    if i < |chapters| {
      AllFit(chapters, i + 1);
      FitParts(chapters[..i + 1]);
      assert chapters[..i + 1][..i] == chapters[..i];
    } else {
      assert chapters[..i] == chapters;
    }
  }

  // ---- what is read ---------------------------------------------------------------

  function ChildPayload(bs: seq<byte>, id: Id): Option<seq<byte>> {
    var es := Children(bs);
    if es.None? then None else Find(es.value, id)
  }

  function ChildUint(bs: seq<byte>, id: Id): Option<nat> {
    var p := ChildPayload(bs, id);
    if p.None? then None else Some(BeValue(p.value))
  }

  // A chapter as a reader finds it, in nanoseconds.
  datatype Entry = Entry(uid: nat, start: nat, end: nat, title: seq<byte>)

  function ReadAtom(atom: seq<byte>): Option<Entry> {
    var (uid, start, end) := (ChildUint(atom, CHAP_UID), ChildUint(atom, CHAP_START), ChildUint(atom, CHAP_END));
    var display := ChildPayload(atom, CHAP_DISPLAY);
    if uid.None? || start.None? || end.None? || display.None? then None
    else
      var title := ChildPayload(display.value, CHAP_STRING);
      if title.None? then None else Some(Entry(uid.value, start.value, end.value, title.value))
  }

  /** The atoms among an edition's children. */
  function ReadAtoms(es: seq<Elem>): Option<seq<Entry>> {
    if es == [] then Some([])
    else
      var (init, last) := (ReadAtoms(es[..|es| - 1]), es[|es| - 1]);
      if last.id != ATOM || init.None? then init
      else if ReadAtom(last.payload).None? then None
      else Some(init.value + [ReadAtom(last.payload).value])
  }

  /** The chapters a reader of the segment's data finds. */
  function ReadChapters(data: seq<byte>): Option<seq<Entry>> {
    var chapters := ChildPayload(data, CHAPTERS);
    if chapters.None? then None
    else
      var edition := ChildPayload(chapters.value, EDITION);
      if edition.None? || Children(edition.value).None? then None else ReadAtoms(Children(edition.value).value)
  }

  /** What should be found: every chapter in order, numbered from one, to the nanosecond. */
  function Entries(chapters: seq<Chapter>): (es: seq<Entry>)
    requires AllUsable(chapters)
  {
    seq(|chapters|, i requires 0 <= i < |chapters| && chapters[i].Usable() =>
      Entry(i + 1, Nanos(chapters[i].start), Nanos(chapters[i].end), chapters[i].title))
  }

  // ---- they are the same --------------------------------------------------------------

  lemma FourChildren(a: Elem, b: Elem, c: Elem, d: Elem)
    requires forall e <- [a, b, c, d] :: ValidId(e.id) && |e.payload| < TWO56 - 1
    requires a.id != b.id && a.id != c.id && b.id != c.id && d.id != a.id && d.id != b.id && d.id != c.id
    ensures var last := El(c.id, c.payload) + El(d.id, d.payload);
      var es := Children(El(a.id, a.payload) + (El(b.id, b.payload) + last));
      && es.Some? && forall e <- [a, b, c, d] :: Find(es.value, e.id) == Some(e.payload)
  {
    hide Children, El, ValidId;
    assert forall e <- [a, b, c, d] :: e == a || e == b || e == c || e == d;
    assert a in [a, b, c, d] && b in [a, b, c, d] && c in [a, b, c, d] && d in [a, b, c, d];
    OnlyChild(d.id, d.payload);
    ChildrenOfEl(c.id, c.payload, El(d.id, d.payload));
    ChildrenOfEl(b.id, b.payload, El(c.id, c.payload) + El(d.id, d.payload));
    ChildrenOfEl(a.id, a.payload, El(b.id, b.payload) + (El(c.id, c.payload) + El(d.id, d.payload)));
    FindFour(a, b, c, d);
  }

  lemma FindFour(a: Elem, b: Elem, c: Elem, d: Elem)
    requires a.id != b.id && a.id != c.id && b.id != c.id && d.id != a.id && d.id != b.id && d.id != c.id
    ensures var es := [a] + ([b] + ([c] + [d]));
      && Find(es, a.id) == Some(a.payload) && Find(es, b.id) == Some(b.payload)
      && Find(es, c.id) == Some(c.payload) && Find(es, d.id) == Some(d.payload)
  {
    var es := [a] + ([b] + ([c] + [d]));
    assert es[1..] == [b, c, d] && [b, c, d][1..] == [c, d] && [c, d][1..] == [d];
    assert Find([c, d], c.id) == Some(c.payload) && Find([c, d], d.id) == Some(d.payload);
    assert Find([b, c, d], c.id) == Some(c.payload) && Find([b, c, d], d.id) == Some(d.payload);
  }

  lemma AtomReads(uid: nat, c: Chapter)
    requires c.Usable() && uid < TWO64 && |c.title| < TITLE_ROOM
    ensures ReadAtom(AtomPayload(uid, c)) == Some(Entry(uid, Nanos(c.start), Nanos(c.end), c.title))
  {
    hide Children, El, Find, BeValue, UintPayload;
    PayloadFits(uid);
    PayloadFits(Nanos(c.start));
    PayloadFits(Nanos(c.end));
    var (a, b) := (Elem(CHAP_UID, UintPayload(uid)), Elem(CHAP_START, UintPayload(Nanos(c.start))));
    var (e, d) := (Elem(CHAP_END, UintPayload(Nanos(c.end))), Elem(CHAP_DISPLAY, Display(c.title)));
    assert a.id[0] != b.id[0] && a.id[0] != e.id[0] && b.id[0] != e.id[0];
    assert d.id[0] != a.id[0] && d.id[0] != b.id[0] && d.id[0] != e.id[0];
    FourChildren(a, b, e, d);
    assert a in [a, b, e, d] && b in [a, b, e, d] && e in [a, b, e, d] && d in [a, b, e, d];
    DisplayReads(c.title);
  }

  lemma DisplayReads(title: seq<byte>)
    requires |title| < TITLE_ROOM
    ensures ChildPayload(Display(title), CHAP_STRING) == Some(title)
  {
    hide Children, El, Find;
    var eng: seq<byte> := [0x65, 0x6E, 0x67];
    OnlyChild(CHAP_LANGUAGE, eng);
    ChildrenOfEl(CHAP_STRING, title, El(CHAP_LANGUAGE, eng));
    FindSecond(Elem(CHAP_STRING, title), Elem(CHAP_LANGUAGE, eng));
  }

  lemma {:induction false} AtomsRead(chapters: seq<Chapter>)
    requires Fit(chapters)
    ensures Children(AllAtoms(chapters)).Some?
    ensures ReadAtoms(Children(AllAtoms(chapters)).value) == Some(Entries(chapters))
  {
    NothingRead();
    hide Children, El, AtomPayload, ReadAtom, Fit, ReadAtoms;
    if chapters != [] {
      var n := |chapters|;
      FitParts(chapters);
      var (init, payload) := (chapters[..n - 1], AtomPayload(n, chapters[n - 1]));
      AtomsRead(init);
      OnlyChild(ATOM, payload);
      ChildrenConcat(AllAtoms(init), El(ATOM, payload));
      AtomReads(n, chapters[n - 1]);
      ReadAtomsSnoc(Children(AllAtoms(init)).value, Elem(ATOM, payload));
      FitUsable(init);
      FitUsable(chapters);
      var last := chapters[n - 1];
      assert Entries(chapters) == Entries(init) + [Entry(n, Nanos(last.start), Nanos(last.end), last.title)];
    }
  }

  lemma FitUsable(chapters: seq<Chapter>)
    requires Fit(chapters)
    ensures AllUsable(chapters)
  {}

  lemma NothingRead()
    ensures Children([]) == Some([]) && ReadAtoms([]) == Some([]) && AllAtoms([]) == [] && Entries([]) == []
  {}

  lemma ReadAtomsSnoc(es: seq<Elem>, e: Elem)
    requires e.id == ATOM && ReadAtoms(es).Some? && ReadAtom(e.payload).Some?
    ensures ReadAtoms(es + [e]) == Some(ReadAtoms(es).value + [ReadAtom(e.payload).value])
  {
    assert (es + [e])[..|es|] == es;
    hide ReadAtom;
  }

  lemma {:induction false} ReadAtomsSkips(e: Elem, es: seq<Elem>)
    requires e.id != ATOM
    ensures ReadAtoms([e] + es) == ReadAtoms(es)
  {
    hide ReadAtom;
    if es == [] {
      assert ([e] + es)[..0] == [];
    } else {
      ReadAtomsSkips(e, es[..|es| - 1]);
      assert ([e] + es)[..|es|] == [e] + es[..|es| - 1];
    }
  }

  /** Printed and parsed again, the chapters are the chapters. */
  lemma ChaptersReadBack(chapters: seq<Chapter>, data: seq<byte>)
    requires Fit(chapters) && ChildPayload(data, CHAPTERS) == Some(El(EDITION, Edition(chapters)))
    ensures ReadChapters(data) == Some(Entries(chapters))
  {
    hide Children, El, Find, ReadAtoms, Fit, AllAtoms;
    AtomsRead(chapters);
    PayloadFits(1);
    ChildrenOfEl(EDITION_UID, UintPayload(1), AllAtoms(chapters));
    ReadAtomsSkips(Elem(EDITION_UID, UintPayload(1)), Children(AllAtoms(chapters)).value);
    OnlyChild(EDITION, Edition(chapters));
    FindAlone(Elem(EDITION, Edition(chapters)));
  }

  lemma FindAlone(e: Elem)
    ensures Find([e], e.id) == Some(e.payload)
  {}
}
