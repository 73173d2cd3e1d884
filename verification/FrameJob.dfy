/** A frames job: which images it asks its filter graph for, which of them it lists, and what its
    result says about the rest. */
module FrameJob {
  import opened Basics
  import opened FrameNames

  // What libav, or a file, answers a call: it went through, not yet, nothing more, or it failed.
  datatype Code = Ok | Retry | Eof | Other

  type Failure = c: Code | c != Ok witness Eof

  // What the filter graph answers when asked for a frame.
  datatype Sink = Frame | Again | Finished | Broken

  // What the search for one target comes to.
  datatype Find = Found | Missing | Failed

  // A packet of the video stream, or of another one.
  datatype Packet = Ours | Elsewhere

  /** The input of a scene job: its packets and how reading ends, what the decoder says to each packet
      sent, and its answers when asked for a picture, Ok being one. Past the last of those it has no
      more. */
  datatype Video = Video(packets: seq<Packet>, last: Failure, sends: nat -> Code, receives: seq<Code>) {
    function Receive(h: nat): Code {
      if h < |receives| then receives[h] else Eof
    }

    /** How many of the decoder's first n answers are pictures. */
    function Pictures(n: nat): nat {
      if n == 0 then 0 else Pictures(n - 1) + (if Receive(n - 1) == Ok then 1 else 0)
    }
  }

  datatype Selector = Seeks(targets: seq<Find>) | Scene(video: Video)

  /** How often the graph was asked for a frame, a write was tried and a frame pushed, and the files
      written. */
  datatype Tally = Tally(asked: nat, tried: nat, pushed: nat, written: nat)

  // Where a seeking job stands among its targets.
  datatype Search = Search(sought: nat, tally: Tally)

  // How many packets a scene job read and sent, and how many answers its decoder gave.
  datatype Reel = Reel(read: nat, sent: nat, heard: nat, tally: Tally)

  const START: Tally := Tally(0, 0, 0, 0)

  // Where part of a job leaves it, and its result.
  datatype Step<T> = Step(at: T, code: Code)

  /** What was asked for, and every answer to come: whether the graph takes each frame pushed into it
      and the end of its input, its own answers, and whether each encode and write goes through. */
  datatype Job = Job(tmpl: string, ntok: nat, cap: nat,
                     accepts: nat -> Code, flush: Code, frames: nat -> Sink, writes: nat -> Code)
  {
    predicate Valid() {
      Pieces(tmpl).Some? && ntok == Tokens(Pieces(tmpl).value) <= 1
    }

    /** Whether file `index` has a path. */
    predicate Fits(index: nat) {
      ExpandPath(tmpl, ntok, index).Some?
    }

    // -- what a job does --

    /** The next answer is a frame, and it can be written. */
    predicate Takes(s: Tally) {
      frames(s.asked) == Frame && Fits(s.written) && writes(s.tried) == Ok
    }

    function Next(s: Tally): Tally {
      Tally(s.asked + 1, s.tried + 1, s.pushed, s.written + 1)
    }

    /** Where the next answer leaves a pull that it ends. `draining` takes a failing graph for its end. */
    function Halt(draining: bool, s: Tally): Step<Tally> {
      var t := s.(asked := s.asked + 1);
      match frames(s.asked)
      case Again => Step(t, Ok)
      case Finished => Step(t, Ok)
      case Broken => Step(t, if draining then Ok else Other)
      case Frame => if Fits(s.written) then Step(t.(tried := s.tried + 1), writes(s.tried)) else Step(t, Other)
    }

    /** Writing what the graph has ready, up to the cap. */
    function Pull(draining: bool, s: Tally): (r: Step<Tally>)
      requires s.written <= cap
      ensures s.written <= r.at.written <= cap
      decreases cap - s.written
    {
      if s.written == cap then Step(s, Ok)
      else if Takes(s) then Pull(draining, Next(s))
      else Halt(draining, s)
    }

    /** One picture pushed, and what the graph then has ready. */
    function Emit(s: Tally): (r: Step<Tally>)
      requires s.written <= cap
      ensures s.written <= r.at.written <= cap
    {
      var t := s.(pushed := s.pushed + 1);
      if accepts(s.pushed) != Ok then Step(t, accepts(s.pushed)) else Pull(false, t)
    }

    /** The targets of a seeking job in turn, until the cap. */
    function Seek(targets: seq<Find>, s: Search): (r: Step<Search>)
      requires s.tally.written <= cap && s.sought <= |targets|
      ensures r.at.tally.written <= cap && s.sought <= r.at.sought <= |targets|
      decreases |targets| - s.sought
    {
      if s.sought == |targets| || s.tally.written == cap then Step(s, Ok)
      else
        var n := s.sought + 1;
        match targets[s.sought]
        case Missing => Seek(targets, Search(n, s.tally))
        case Failed => Step(Search(n, s.tally), Other)
        case Found =>
          var e := Emit(s.tally);
          if e.code != Ok then Step(Search(n, e.at), e.code) else Seek(targets, Search(n, e.at))
    }

    /** The pictures one packet of a scene job brings. */
    function Hear(v: Video, s: Reel): (r: Step<Reel>)
      requires s.tally.written <= cap
      ensures r.at.tally.written <= cap && r.at.read == s.read && r.at.sent == s.sent
      decreases |v.receives| - s.heard
    {
      var n := s.heard + 1;
      if v.Receive(s.heard) != Ok then Step(s.(heard := n), v.Receive(s.heard))
      else
        var e := Emit(s.tally);
        var t := s.(heard := n, tally := e.at);
        if e.code != Ok || e.at.written == cap then Step(t, e.code) else Hear(v, t)
    }

    /** The packets of a scene job. The code a packet comes to may be the decoder's or that of an emitted
        picture: Retry goes on with the next packet either way. */
    function Feed(v: Video, s: Reel): (r: Step<Reel>)
      requires s.tally.written <= cap && s.read <= |v.packets|
      ensures r.at.tally.written <= cap
      decreases |v.packets| - s.read
    {
      if s.tally.written == cap then Step(s, Ok)
      else
        var t := s.(read := s.read + 1);
        if s.read == |v.packets| then Step(t, v.last)
        else if v.packets[s.read].Elsewhere? then Feed(v, t)
        else
          var u := t.(sent := s.sent + 1);
          if v.sends(s.sent) != Ok then Step(u, v.sends(s.sent))
          else
            var h := Hear(v, u);
            if h.code == Ok || h.code == Retry then Feed(v, h.at) else h
    }

    /** The pictures the decoder still had. */
    function FlushDecoder(v: Video, s: Reel): (r: Step<Reel>)
      requires s.tally.written <= cap
      ensures r.at.tally.written <= cap
      decreases |v.receives| - s.heard
    {
      if s.tally.written == cap then Step(s, Ok)
      else
        var n := s.heard + 1;
        if v.Receive(s.heard) != Ok then Step(s.(heard := n), v.Receive(s.heard))
        else
          var e := Emit(s.tally);
          var t := s.(heard := n, tally := e.at);
          if e.code != Ok then Step(t, e.code) else FlushDecoder(v, t)
    }

    /** A scene job up to the end of the graph's input. The end of the packets is no failure, and
        neither is a decoder that has nothing more, or nothing yet. */
    function BeforeClose(v: Video): (r: Step<Reel>)
      ensures r.at.tally.written <= cap
    {
      var fed := Feed(v, Reel(0, 0, 0, START));
      if fed.code != Ok && fed.code != Eof then fed
      else
        var flushed := FlushDecoder(v, fed.at);
        if flushed.code == Other then flushed else Step(flushed.at, Ok)
    }

    /** The end of the graph's input, if there is still room, and the last drain. */
    function Close(s: Tally): (r: Step<Tally>)
      requires s.written <= cap
      ensures s.written <= r.at.written <= cap
    {
      if s.written == cap then Step(s, Ok)
      else if flush != Ok && flush != Eof then Step(s, flush)
      else Pull(true, s)
    }

    lemma NoRoomCloses(s: Tally)
      requires s.written <= cap
      ensures s.written == cap ==> Close(s) == Step(s, Ok)
    {}

    function WholeScene(v: Video): (r: Step<Tally>)
      ensures r.at.written <= cap
    {
      var before := BeforeClose(v);
      if before.code != Ok then Step(before.at.tally, before.code) else Close(before.at.tally)
    }

    function WholeSearch(targets: seq<Find>): (r: Step<Search>)
      ensures r.at.sought <= |targets|
    {
      Seek(targets, Search(0, START))
    }

    /** A literal path can only name one file. */
    predicate MayName(sel: Selector) {
      ntok == 0 ==> (match sel case Seeks(targets) => |targets| case Scene(_) => cap) <= 1
    }

    // -- where a pull stops --

    /** Where pulling stops that starts at answer `from` with room for `room` files: behind the first
        answer that is no frame, or where the room runs out. */
    function Stop(from: nat, room: nat): (to: nat)
      ensures from <= to <= from + room + 1
      decreases room
    {
      if room == 0 then from else if frames(from) == Frame then Stop(from + 1, room - 1) else from + 1
    }

    /** How many frames the graph yielded from answer `from` up to answer `to`. */
    function Yield(from: nat, to: nat): (n: nat)
      requires from <= to
      ensures n <= to - from
    {
      if from == to then 0 else Yield(from, to - 1) + (if frames(to - 1) == Frame then 1 else 0)
    }

    /** The pull ran into an answer that is no frame before the room ran out. */
    predicate CutShort(from: nat, room: nat) {
      Stop(from, room) > from && frames(Stop(from, room) - 1) != Frame
    }

    /** Stop is where it says: everything before the last answer is a frame, and either the last one is
        not or the room is full. */
    lemma {:induction false} StopIsExact(from: nat, room: nat)
      ensures forall k :: from <= k < Stop(from, room) - 1 ==> frames(k) == Frame
      ensures Yield(from, Stop(from, room)) == if CutShort(from, room) then Stop(from, room) - from - 1 else room
      ensures CutShort(from, room) <==> Yield(from, Stop(from, room)) < room
      decreases room
    {
      if room > 0 {
        if frames(from) == Frame {
          StopIsExact(from + 1, room - 1);
          YieldJoins(from, from + 1, Stop(from, room));
        }
        assert Yield(from, from) == 0 && Yield(from, from + 1) == if frames(from) == Frame then 1 else 0;
      }
    }

    lemma {:induction false} YieldJoins(a: nat, b: nat, c: nat)
      requires a <= b <= c
      ensures Yield(a, c) == Yield(a, b) + Yield(b, c)
    {
      if b < c {
        YieldJoins(a, b, c - 1);
      }
    }

    /** The graph fails at the first answer that is no frame, and before the room runs out. */
    ghost predicate Fails(from: nat, room: nat) {
      exists k: nat :: from <= k < from + room && frames(k) == Broken
        && forall j: nat :: from <= j < k ==> frames(j) == Frame
    }

    lemma FailsStep(from: nat, room: nat)
      requires room > 0
      ensures frames(from) != Frame ==> (Fails(from, room) <==> frames(from) == Broken)
      ensures frames(from) == Frame ==> (Fails(from, room) <==> Fails(from + 1, room - 1))
    {
      if frames(from) == Frame && Fails(from + 1, room - 1) {
        var k: nat :| from + 1 <= k < from + room && frames(k) == Broken
          && forall j: nat :: from + 1 <= j < k ==> frames(j) == Frame;
        assert forall j: nat :: from <= j < k ==> frames(j) == Frame;
      }
    }

    /** n files from `index` on can be written, from attempt `attempt` on: their names fit and the
        writes succeed. */
    ghost predicate Writable(index: nat, attempt: nat, n: nat) {
      && (forall i: nat :: index <= i < index + n ==> Fits(i))
      && (forall t: nat :: attempt <= t < attempt + n ==> writes(t) == Ok)
    }

    lemma WritableStep(index: nat, attempt: nat, n: nat)
      ensures Writable(index, attempt, n + 1) <==>
        Fits(index) && writes(attempt) == Ok && Writable(index + 1, attempt + 1, n)
    {
      hide Fits;
    }

    /** The frames a pull from s finds ready. */
    function Ready(s: Tally): nat
      requires s.written <= cap
    {
      Yield(s.asked, Stop(s.asked, cap - s.written))
    }

    /** A pull goes through exactly when the graph does not fail, if that counts, and every frame it
        has ready can be written; then all of them were. */
    lemma {:induction false} PullIsExact(draining: bool, s: Tally)
      requires s.written <= cap
      ensures var r := Pull(draining, s);
        && (r.code == Ok <==>
              (draining || !Fails(s.asked, cap - s.written)) && Writable(s.written, s.tried, Ready(s)))
        && (r.code == Ok ==> r.at == Tally(Stop(s.asked, cap - s.written), s.tried + Ready(s), s.pushed,
                                           s.written + Ready(s)))
      decreases cap - s.written
    {
      var room := cap - s.written;
      hide Fits, Fails, Writable, Stop, Yield, Ready;
      NothingToWrite(s.written, s.tried);
      ReadyStep(s);
      if s.written < cap {
        FailsStep(s.asked, cap - s.written);
        if frames(s.asked) == Frame {
          WritableStep(s.written, s.tried, Ready(Next(s)));
          if Takes(s) {
            PullIsExact(draining, Next(s));
          }
        }
      }
    }

    lemma ReadyStep(s: Tally)
      requires s.written <= cap
      ensures s.written == cap ==> Stop(s.asked, 0) == s.asked && Ready(s) == 0
      ensures s.written < cap && frames(s.asked) != Frame ==>
        Stop(s.asked, cap - s.written) == s.asked + 1 && Ready(s) == 0
      ensures s.written < cap && frames(s.asked) == Frame ==>
        && Stop(s.asked, cap - s.written) == Stop(s.asked + 1, cap - s.written - 1)
        && Ready(s) == Ready(Next(s)) + 1
    {
      assert Yield(s.asked, s.asked) == 0;
      if s.written < cap && frames(s.asked) == Frame {
        YieldJoins(s.asked, s.asked + 1, Stop(s.asked, cap - s.written));
      }
    }

    lemma NothingToWrite(index: nat, attempt: nat)
      ensures Writable(index, attempt, 0) && forall from: nat :: !Fails(from, 0)
    {}

    /** So a drain that goes through would have failed anywhere else exactly when the graph fails before
        the room runs out. */
    lemma DrainHidesFailure(s: Tally)
      requires s.written <= cap && Pull(true, s).code == Ok
      ensures Pull(false, s).code != Ok <==> Fails(s.asked, cap - s.written)
      ensures Fails(s.asked, cap - s.written) <==>
        Pull(true, s).at.asked > s.asked && frames(Pull(true, s).at.asked - 1) == Broken
    {
      hide Writable, Pull, Stop, Fails, Ready;
      PullIsExact(true, s);
      PullIsExact(false, s);
      BrokenLast(s.asked, cap - s.written);
    }

    lemma {:induction false} BrokenLast(from: nat, room: nat)
      ensures Fails(from, room) <==> Stop(from, room) > from && frames(Stop(from, room) - 1) == Broken
      decreases room
    {
      hide Fails;
      if room == 0 {
        NothingToWrite(0, 0);
      } else {
        FailsStep(from, room);
        if frames(from) == Frame {
          BrokenLast(from + 1, room - 1);
        }
      }
    }

    // -- what decides a job --

    /** Codes a job can go on after: in a scene job all but a plain failure. */
    predicate Bearable(strict: bool, c: Code) {
      c == Ok || (!strict && c != Other)
    }

    /** So far every push and write came to such a code, the graph never failed and each frame it yielded
        had a name and so an attempt to write it. */
    ghost predicate Sound(strict: bool, s: Tally) {
      && (forall n: nat :: n < s.pushed ==> Bearable(strict, accepts(n)))
      && (forall t: nat :: t < s.tried ==> Bearable(strict, writes(t)))
      && (forall k: nat :: k < s.asked ==> frames(k) != Broken)
      && Yield(0, s.asked) == s.tried
    }

    lemma {:induction false} PullIsSound(strict: bool, s: Tally)
      requires s.written <= cap && Sound(strict, s)
      ensures Bearable(strict, Pull(false, s).code) <==> Sound(strict, Pull(false, s).at)
      decreases cap - s.written
    {
      hide Fits;
      if s.written < cap && Takes(s) {
        PullIsSound(strict, Next(s));
      }
    }

    lemma EmitIsSound(strict: bool, s: Tally)
      requires s.written <= cap && Sound(strict, s)
      ensures Bearable(strict, Emit(s).code) <==> Sound(strict, Emit(s).at)
    {
      hide Pull;
      var t := s.(pushed := s.pushed + 1);
      if accepts(s.pushed) == Ok {
        PullIsSound(strict, t);
      }
    }

    /** How many of the first n attempts to write went through. */
    function Written(n: nat): (k: nat)
      ensures k <= n && (k == n <==> forall t: nat :: t < n ==> writes(t) == Ok)
    {
      if n == 0 then 0 else Written(n - 1) + (if writes(n - 1) == Ok then 1 else 0)
    }

    lemma {:induction false} PullCounts(draining: bool, s: Tally)
      requires s.written <= cap
      ensures Pull(draining, s).at.pushed == s.pushed
      ensures var r := Pull(draining, s).at; s.written == Written(s.tried) ==> r.written == Written(r.tried)
      decreases cap - s.written
    {
      hide Fits;
      if s.written < cap && Takes(s) {
        PullCounts(draining, Next(s));
      }
    }

    // -- seeking jobs --

    /** How many of the targets were found. */
    static function Count(targets: seq<Find>): nat {
      if targets == [] then 0
      else Count(targets[..|targets| - 1]) + (if targets[|targets| - 1].Found? then 1 else 0)
    }

    /** No search among the targets looked for failed. */
    static ghost predicate NoneFailed(targets: seq<Find>, sought: nat)
      requires sought <= |targets|
    {
      forall i :: 0 <= i < sought ==> !targets[i].Failed?
    }

    lemma {:induction false} SeekIsSound(targets: seq<Find>, s: Search)
      requires s.tally.written <= cap && s.sought <= |targets|
      requires Sound(true, s.tally) && NoneFailed(targets, s.sought) && s.tally.pushed == Count(targets[..s.sought])
      ensures var r := Seek(targets, s);
        && (r.code == Ok <==> Sound(true, r.at.tally) && NoneFailed(targets, r.at.sought))
        && (r.code == Ok ==>
              && r.at.tally.pushed == Count(targets[..r.at.sought])
              && (r.at.tally.written == cap || r.at.sought == |targets|))
      decreases |targets| - s.sought
    {
      hide Sound, Emit;
      if s.sought < |targets| && s.tally.written < cap {
        assert targets[..s.sought + 1][..s.sought] == targets[..s.sought];
        match targets[s.sought]
        case Missing => SeekIsSound(targets, Search(s.sought + 1, s.tally));
        case Failed =>
        case Found =>
          EmitIsSound(true, s.tally);
          EmitCounts(s.tally);
          if Emit(s.tally).code == Ok {
            SeekIsSound(targets, Search(s.sought + 1, Emit(s.tally).at));
          }
      }
    }

    lemma {:induction false} SeekCounts(targets: seq<Find>, s: Search)
      requires s.tally.written <= cap && s.sought <= |targets| && s.tally.written == Written(s.tally.tried)
      ensures var r := Seek(targets, s).at.tally; r.written == Written(r.tried)
      decreases |targets| - s.sought
    {
      hide Emit, Written;
      if s.sought < |targets| && s.tally.written < cap {
        EmitCounts(s.tally);
        match targets[s.sought]
        case Missing => SeekCounts(targets, Search(s.sought + 1, s.tally));
        case Failed =>
        case Found =>
          if Emit(s.tally).code == Ok {
            SeekCounts(targets, Search(s.sought + 1, Emit(s.tally).at));
          }
      }
    }

    lemma EmitCounts(s: Tally)
      requires s.written <= cap
      ensures Emit(s).at.pushed == s.pushed + 1
      ensures var r := Emit(s).at; s.written == Written(s.tried) ==> r.written == Written(r.tried)
    {
      hide Written, Pull;
      if accepts(s.pushed) == Ok {
        PullCounts(false, s.(pushed := s.pushed + 1));
      }
    }

    lemma NothingYet(strict: bool)
      ensures Sound(strict, START) && Written(0) == 0 && Count([]) == 0
    {}

    /** A seeking job succeeds exactly when no search failed, the graph never did and every push, name and
        write went through; then everything the graph yielded was written. */
    lemma SeekSucceedsIff(targets: seq<Find>)
      ensures var r := WholeSearch(targets);
        && (r.code == Ok <==> Sound(true, r.at.tally) && NoneFailed(targets, r.at.sought))
        && (r.code == Ok ==>
              && r.at.tally.written == r.at.tally.tried == Yield(0, r.at.tally.asked)
              && r.at.tally.pushed == Count(targets[..r.at.sought])
              && (r.at.tally.written == cap || r.at.sought == |targets|))
    {
      NothingYet(true);
      hide Sound, Count, Seek, Yield, Written;
      assert targets[..0] == [];
      var s := Search(0, START);
      SeekIsSound(targets, s);
      SeekCounts(targets, s);
      var r := Seek(targets, s).at.tally;
      if Sound(true, r) {
        SoundCounts(r);
      }
    }

    lemma SoundCounts(s: Tally)
      requires Sound(true, s)
      ensures Written(s.tried) == s.tried == Yield(0, s.asked)
    {}

    // -- scene jobs --

    /** Every picture so far was pushed, and every write that went through is a file. */
    ghost predicate Accounted(v: Video, s: Reel) {
      s.tally.pushed == v.Pictures(s.heard) && s.tally.written == Written(s.tally.tried)
    }

    /** Nothing the job met so far is a failure to it: no push, write or frame of the graph, no packet
        sent, no answer of the decoder and not the end of the packets. */
    ghost predicate Survives(v: Video, s: Reel) {
      && Sound(false, s.tally)
      && (s.read > |v.packets| ==> v.last == Eof)
      && (forall n: nat :: n < s.sent ==> v.sends(n) == Ok || v.sends(n) == Eof)
      && (forall h: nat :: h < s.heard ==> v.Receive(h) != Other)
    }

    /** One more answer of the decoder, and if it was a picture, one more picture emitted. */
    lemma OneMoreHeard(v: Video, s: Reel)
      requires s.tally.written <= cap && Survives(v, s) && Accounted(v, s)
      ensures Survives(v, s.(heard := s.heard + 1)) <==> v.Receive(s.heard) != Other
      ensures v.Receive(s.heard) != Ok ==> Accounted(v, s.(heard := s.heard + 1))
      ensures v.Receive(s.heard) == Ok ==>
        var (e, t) := (Emit(s.tally), s.(heard := s.heard + 1, tally := Emit(s.tally).at));
        Accounted(v, t) && (Survives(v, t) <==> e.code != Other)
    {
      hide Emit, Sound, Written, Video.Receive;
      EmitIsSound(false, s.tally);
      EmitCounts(s.tally);
    }

    lemma {:induction false} HearSurvives(v: Video, s: Reel)
      requires s.tally.written <= cap && Survives(v, s) && Accounted(v, s)
      ensures Hear(v, s).code != Other <==> Survives(v, Hear(v, s).at)
      ensures Accounted(v, Hear(v, s).at)
      decreases |v.receives| - s.heard
    {
      hide Survives, Accounted, Emit;
      OneMoreHeard(v, s);
      var e := Emit(s.tally);
      if v.Receive(s.heard) == Ok && e.code == Ok && e.at.written < cap {
        HearSurvives(v, s.(heard := s.heard + 1, tally := e.at));
      }
    }

    lemma {:induction false} FlushSurvives(v: Video, s: Reel)
      requires s.tally.written <= cap && Survives(v, s) && Accounted(v, s)
      ensures FlushDecoder(v, s).code != Other <==> Survives(v, FlushDecoder(v, s).at)
      ensures Accounted(v, FlushDecoder(v, s).at)
      decreases |v.receives| - s.heard
    {
      hide Survives, Accounted, Emit;
      OneMoreHeard(v, s);
      var e := Emit(s.tally);
      if s.tally.written < cap && v.Receive(s.heard) == Ok && e.code == Ok {
        FlushSurvives(v, s.(heard := s.heard + 1, tally := e.at));
      }
    }

    /** One more packet, or the end of them, and one more sent. */
    lemma OneMoreRead(v: Video, s: Reel)
      requires Survives(v, s) && Accounted(v, s) && s.read <= |v.packets|
      ensures Accounted(v, s.(read := s.read + 1)) && Accounted(v, s.(read := s.read + 1, sent := s.sent + 1))
      ensures Survives(v, s.(read := s.read + 1)) <==> s.read < |v.packets| || v.last == Eof
      ensures s.read < |v.packets| ==>
        (Survives(v, s.(read := s.read + 1, sent := s.sent + 1)) <==>
           v.sends(s.sent) == Ok || v.sends(s.sent) == Eof)
    {
      hide Sound, Written, Video.Receive;
    }

    lemma {:induction false} FeedSurvives(v: Video, s: Reel)
      requires s.tally.written <= cap && s.read <= |v.packets| && Survives(v, s) && Accounted(v, s)
      ensures var r := Feed(v, s); (r.code == Ok || r.code == Eof <==> Survives(v, r.at)) && Accounted(v, r.at)
      decreases |v.packets| - s.read
    {
      hide Survives, Accounted, Hear;
      if s.tally.written < cap {
        OneMoreRead(v, s);
        if s.read < |v.packets| {
          var t := s.(read := s.read + 1);
          if v.packets[s.read].Elsewhere? {
            FeedSurvives(v, t);
          } else if v.sends(s.sent) == Ok {
            var u := t.(sent := s.sent + 1);
            HearSurvives(v, u);
            var h := Hear(v, u);
            if h.code == Ok || h.code == Retry {
              FeedSurvives(v, h.at);
            }
          }
        }
      }
    }

    /** What a scene job is when the end of its graph's input comes: gone through so far exactly when
        reading, decoding, the graph, the names, the pushes and the writes came to nothing worse than
        Retry or Eof, where those are let pass. */
    lemma BeforeCloseSurvivesIff(v: Video)
      ensures BeforeClose(v).code == Ok <==> Survives(v, BeforeClose(v).at)
      ensures Accounted(v, BeforeClose(v).at)
    {
      NothingYet(false);
      var start := Reel(0, 0, 0, START);
      assert Survives(v, start) && Accounted(v, start);
      FeedSurvives(v, start);
      hide Survives, Accounted, Feed, FlushDecoder;
      var fed := Feed(v, start);
      if fed.code == Ok || fed.code == Eof {
        FlushSurvives(v, fed.at);
      }
    }

    /** The end of the graph's input goes through, and so does the last drain, or there is no room. */
    ghost predicate Closes(s: Tally)
      requires s.written <= cap
    {
      s.written < cap ==> (flush == Ok || flush == Eof) && Writable(s.written, s.tried, Ready(s))
    }

    lemma SceneSucceedsIff(v: Video)
      ensures var before := BeforeClose(v).at;
        WholeScene(v).code == Ok <==> Survives(v, before) && Closes(before.tally)
    {
      hide BeforeClose, Survives, Accounted, Writable, Ready, Pull;
      BeforeCloseSurvivesIff(v);
      PullIsExact(true, BeforeClose(v).at.tally);
    }

    /** Nothing was lost: every picture pushed was taken, and every frame the graph yielded was written. */
    ghost predicate Complete(s: Tally) {
      (forall n: nat :: n < s.pushed ==> accepts(n) == Ok) && s.written == Yield(0, s.asked)
    }

    /** A push or a write so far came to a code that a scene job takes for its decoder's. */
    ghost predicate Swallowed(s: Tally) {
      || (exists n: nat :: n < s.pushed && (accepts(n) == Retry || accepts(n) == Eof))
      || (exists t: nat :: t < s.tried && (writes(t) == Retry || writes(t) == Eof))
    }

    /** In a scene job that succeeds every picture was pushed and every frame the graph yielded was tried
        once; and nothing was lost exactly when no push and no write came to Retry or Eof. */
    lemma SceneCompleteIff(v: Video)
      requires WholeScene(v).code == Ok
      ensures var r := WholeScene(v).at;
        && r.pushed == v.Pictures(BeforeClose(v).at.heard)
        && r.tried == Yield(0, r.asked) && r.written == Written(r.tried)
        && (Complete(r) <==> !Swallowed(r))
    {
      SceneSucceedsIff(v);
      BeforeCloseSurvivesIff(v);
      hide BeforeClose, Sound, Close;
      CloseAccounts(BeforeClose(v).at.tally);
    }

    lemma CloseAccounts(s: Tally)
      requires s.written <= cap && Sound(false, s) && s.written == Written(s.tried) && Close(s).code == Ok
      ensures var r := Close(s).at;
        && r.pushed == s.pushed && r.tried == Yield(0, r.asked) && r.written == Written(r.tried)
        && (Complete(r) <==> !Swallowed(r))
    {
      hide Fits, Pull, Stop, Fails, Written;
      var r := Close(s).at;
      if s.written < cap {
        PullIsExact(true, s);
        PullCounts(true, s);
        YieldJoins(0, s.asked, r.asked);
      }
      NoneWorse(r);
    }

    /** What is complete, where nothing came to a plain failure. */
    lemma NoneWorse(s: Tally)
      requires s.written == Written(s.tried) && s.tried == Yield(0, s.asked)
      requires forall n: nat :: n < s.pushed ==> accepts(n) != Other
      requires forall t: nat :: t < s.tried ==> writes(t) != Other
      ensures Complete(s) <==> !Swallowed(s)
    {
      hide Yield;
    }

    // -- nothing is left behind --

    ghost predicate Grew(s: Tally, t: Tally) {
      s.pushed <= t.pushed && s.tried <= t.tried
    }

    /** Once swallowed, always. */
    lemma SwallowedStays(s: Tally, t: Tally)
      requires Grew(s, t) && Swallowed(s)
      ensures Swallowed(t)
    {}

    lemma {:induction false} PullSwallows(draining: bool, s: Tally)
      requires s.written <= cap
      ensures var r := Pull(draining, s);
        Grew(s, r.at) && (r.code == Retry || r.code == Eof ==> Swallowed(r.at))
      decreases cap - s.written
    {
      hide Fits;
      if s.written < cap && Takes(s) {
        PullSwallows(draining, Next(s));
      } else if s.written < cap {
        var t := Halt(draining, s).at;
        assert t.tried > s.tried ==> writes(s.tried) == Halt(draining, s).code;
      }
    }

    lemma EmitSwallows(s: Tally)
      requires s.written <= cap
      ensures var r := Emit(s); Grew(s, r.at) && (r.code == Retry || r.code == Eof ==> Swallowed(r.at))
    {
      hide Pull;
      var t := s.(pushed := s.pushed + 1);
      if accepts(s.pushed) == Ok {
        PullSwallows(false, t);
      } else {
        assert s.pushed < Emit(s).at.pushed;
      }
    }

    /** What a packet brings is heard up to the decoder's own answer that there is no more, unless the cap
        is reached or a push or a write came to such a code. */
    lemma {:induction false} HearsItOut(v: Video, s: Reel)
      requires s.tally.written <= cap
      ensures var r := Hear(v, s);
        && Grew(s.tally, r.at.tally) && r.at.heard > s.heard
        && (r.code == Ok ==> r.at.tally.written == cap)
        && (r.code == Retry || r.code == Eof ==> v.Receive(r.at.heard - 1) == r.code || Swallowed(r.at.tally))
      decreases |v.receives| - s.heard
    {
      hide Emit, Swallowed;
      EmitSwallows(s.tally);
      var e := Emit(s.tally);
      if v.Receive(s.heard) == Ok && e.code == Ok && e.at.written < cap {
        HearsItOut(v, s.(heard := s.heard + 1, tally := e.at));
      }
    }

    lemma {:induction false} FlushesItOut(v: Video, s: Reel)
      requires s.tally.written <= cap
      ensures var r := FlushDecoder(v, s);
        && Grew(s.tally, r.at.tally) && r.at.heard >= s.heard
        && (r.code == Ok ==> r.at.tally.written == cap)
        && (r.code == Retry || r.code == Eof ==>
              r.at.heard > 0 && (v.Receive(r.at.heard - 1) == r.code || Swallowed(r.at.tally)))
      decreases |v.receives| - s.heard
    {
      hide Emit, Swallowed;
      EmitSwallows(s.tally);
      var e := Emit(s.tally);
      if s.tally.written < cap && v.Receive(s.heard) == Ok && e.code == Ok {
        FlushesItOut(v, s.(heard := s.heard + 1, tally := e.at));
      }
    }

    /** The packets were read to their end, or the decoder said itself that it takes or has no more. */
    ghost predicate ReadOut(v: Video, s: Reel) {
      || s.read > |v.packets|
      || (s.sent > 0 && v.sends(s.sent - 1) == Eof)
      || (s.heard > 0 && v.Receive(s.heard - 1) == Eof)
    }

    /** How many of the first n packets are of the video stream. */
    static function OursAmong(packets: seq<Packet>, n: nat): nat {
      if n == 0 then 0
      else OursAmong(packets, n - 1) + (if n <= |packets| && packets[n - 1].Ours? then 1 else 0)
    }

    /** Every packet of the stream that was read was sent, and no other. */
    lemma {:induction false} FeedsItOut(v: Video, s: Reel)
      requires s.tally.written <= cap && s.read <= |v.packets| && s.sent == OursAmong(v.packets, s.read)
      ensures var r := Feed(v, s);
        && Grew(s.tally, r.at.tally) && r.at.sent == OursAmong(v.packets, r.at.read)
        && (r.code == Ok ==> r.at.tally.written == cap)
        && (r.code == Eof ==> ReadOut(v, r.at) || Swallowed(r.at.tally))
      decreases |v.packets| - s.read
    {
      hide Hear, Swallowed, Video.Receive;
      if s.tally.written < cap && s.read < |v.packets| {
        var t := s.(read := s.read + 1);
        if v.packets[s.read].Elsewhere? {
          FeedsItOut(v, t);
        } else if v.sends(s.sent) == Ok {
          var u := t.(sent := s.sent + 1);
          HearsItOut(v, u);
          var h := Hear(v, u);
          if h.code == Ok || h.code == Retry {
            FeedsItOut(v, h.at);
          }
        }
      }
    }

    /** The job is full, or swallowed a code, or has read its packets out and heard its decoder out; and
        the decoder was sent the packets of its stream. */
    ghost predicate WentToTheEnd(v: Video, r: Tally) {
      var (fed, before) := (Feed(v, Reel(0, 0, 0, START)).at, BeforeClose(v).at);
      && before.sent == OursAmong(v.packets, before.read)
      && (r.written == cap || Swallowed(r)
          || (ReadOut(v, fed) && before.heard > 0 && v.Receive(before.heard - 1) != Ok))
    }

    lemma SceneGoesToTheEnd(v: Video)
      requires WholeScene(v).code == Ok
      ensures WentToTheEnd(v, WholeScene(v).at)
    {
      hide Feed, FlushDecoder, Pull, Swallowed, ReadOut, Video.Receive;
      var start := Reel(0, 0, 0, START);
      FeedsItOut(v, start);
      var fed := Feed(v, start);
      FlushKeepsReading(v, fed.at);
      FlushesItOut(v, fed.at);
      var before := BeforeClose(v).at.tally;
      PullSwallows(true, before);
      var r := WholeScene(v).at;
      assert Grew(before, r) && Grew(fed.at.tally, r);
      if Swallowed(before) { SwallowedStays(before, r); }
      if Swallowed(fed.at.tally) { SwallowedStays(fed.at.tally, r); }
    }

    lemma {:induction false} FlushKeepsReading(v: Video, s: Reel)
      requires s.tally.written <= cap
      ensures var r := FlushDecoder(v, s).at;
        r.read == s.read && r.sent == s.sent && s.tally.written <= r.tally.written
      decreases |v.receives| - s.heard
    {
      hide Emit;
      var e := Emit(s.tally);
      if s.tally.written < cap && v.Receive(s.heard) == Ok && e.code == Ok {
        FlushKeepsReading(v, s.(heard := s.heard + 1, tally := e.at));
      }
    }

    /** No target is looked for once the job is full. */
    lemma {:induction false} SeekStopsAtCap(targets: seq<Find>, s: Search, k: nat)
      requires s.tally.written <= cap && s.sought <= k <= |targets| && k < Seek(targets, s).at.sought
      ensures Seek(targets[..k], s).code == Ok && Seek(targets[..k], s).at.tally.written < cap
      decreases |targets| - s.sought
    {
      hide Emit;
      if s.sought < k {
        var n := s.sought + 1;
        assert targets[..k][s.sought] == targets[s.sought];
        match targets[s.sought]
        case Missing => SeekStopsAtCap(targets, Search(n, s.tally), k);
        case Failed =>
        case Found =>
          if Emit(s.tally).code == Ok {
            SeekStopsAtCap(targets, Search(n, Emit(s.tally).at), k);
          }
      }
    }

    // -- names --

    /** A scale or null chain: at most one frame out for each one in. */
    ghost predicate OneForOne() {
      forall k: nat :: frames(k) == Frame ==> frames(k + 1) == Again || frames(k + 1) == Finished
    }

    lemma OneFilePerPush(s: Tally)
      requires s.written <= cap && OneForOne()
      ensures Emit(s).at.written <= s.written + 1
    {
      hide Fits;
      var t := s.(pushed := s.pushed + 1);
      if accepts(s.pushed) == Ok && s.written + 1 < cap && Takes(t) {
        assert Pull(false, Next(t)) == Halt(false, Next(t));
      }
    }

    lemma {:induction false} OneFilePerTarget(targets: seq<Find>, s: Search)
      requires s.tally.written <= cap && s.sought <= |targets| && OneForOne()
      ensures Seek(targets, s).at.tally.written <= s.tally.written + |targets| - s.sought
      decreases |targets| - s.sought
    {
      hide Emit, OneForOne;
      if s.sought < |targets| && s.tally.written < cap {
        OneFilePerPush(s.tally);
        match targets[s.sought]
        case Missing => OneFilePerTarget(targets, Search(s.sought + 1, s.tally));
        case Failed =>
        case Found =>
          if Emit(s.tally).code == Ok {
            OneFilePerTarget(targets, Search(s.sought + 1, Emit(s.tally).at));
          }
      }
    }
  }

  /** A scene job for one image, from one picture: the encoder keeps the frame to itself and asks for
      more. The job succeeds with nothing listed. */
  lemma SwallowedWriteExample()
    ensures var job := Job("a", 0, 1, _ => Ok, Ok, k => if k == 0 then Frame else Finished, _ => Retry);
      var v := Video([Ours], Eof, _ => Ok, [Ok]);
      && job.Valid() && job.MayName(Scene(v))
      && job.WholeScene(v) == Step(Tally(2, 1, 1, 0), Ok) && job.Yield(0, 2) == 1
  {
    var job := Job("a", 0, 1, _ => Ok, Ok, k => if k == 0 then Frame else Finished, _ => Retry);
    var v := Video([Ours], Eof, _ => Ok, [Ok]);
    assert job.Fits(0) && job.Valid();
    KeptByEncoder(job, v);
    assert job.Yield(0, 0) == 0 && job.Yield(0, 1) == 1;
  }

  /** The calls of such a job, in order. */
  lemma KeptByEncoder(job: Job, v: Video)
    requires job.cap == 1 && job.Fits(0) && v.packets == [Ours] && v.last == Eof && v.receives == [Ok]
    requires v.sends(0) == Ok && job.accepts(0) == Ok && job.frames(0) == Frame && job.writes(0) == Retry
    requires job.flush == Ok && job.frames(1) == Finished
    ensures job.WholeScene(v) == Step(Tally(2, 1, 1, 0), Ok)
  {
    hide Job.Fits;
    assert job.Hear(v, Reel(1, 1, 0, START)) == Step(Reel(1, 1, 1, Tally(1, 1, 1, 0)), Retry);
    assert job.Feed(v, Reel(0, 0, 0, START)) == Step(Reel(2, 1, 1, Tally(1, 1, 1, 0)), Eof);
    assert job.BeforeClose(v) == Step(Reel(2, 1, 2, Tally(1, 1, 1, 0)), Ok);
  }

  /** One whose graph will have no more pictures: it succeeds although the picture never got in. */
  lemma RefusedPushExample()
    ensures var job := Job("a", 0, 1, _ => Eof, Ok, _ => Finished, _ => Ok);
      job.WholeScene(Video([Ours], Eof, _ => Ok, [Ok])) == Step(Tally(1, 0, 1, 0), Ok)
  {
    var job := Job("a", 0, 1, _ => Eof, Ok, _ => Finished, _ => Ok);
    var v := Video([Ours], Eof, _ => Ok, [Ok]);
    assert job.Hear(v, Reel(1, 1, 0, START)) == Step(Reel(1, 1, 1, Tally(0, 0, 1, 0)), Eof);
    assert job.Feed(v, Reel(0, 0, 0, START)) == Step(Reel(1, 1, 1, Tally(0, 0, 1, 0)), Eof);
    assert job.BeforeClose(v) == Step(Reel(1, 1, 2, Tally(0, 0, 1, 0)), Ok);
  }

  /** One whose graph fails when it is drained: it succeeds, and any other pull would have failed. */
  lemma BrokenDrainExample()
    ensures var job := Job("a", 0, 1, _ => Ok, Ok, _ => Broken, _ => Ok);
      && job.WholeScene(Video([], Eof, _ => Ok, [])) == Step(Tally(1, 0, 0, 0), Ok)
      && job.Fails(0, 1) && job.Pull(false, START).code == Other
  {
    var job := Job("a", 0, 1, _ => Ok, Ok, _ => Broken, _ => Ok);
    var v := Video([], Eof, _ => Ok, []);
    assert job.frames(0) == Broken;
    assert job.Feed(v, Reel(0, 0, 0, START)) == Step(Reel(1, 0, 0, START), Eof);
    assert job.BeforeClose(v) == Step(Reel(1, 0, 1, START), Ok);
  }

  // ---- the job itself --------------------------------------------------------------------

  // One written image, as the job lists it.
  datatype Entry = Entry(path: string, index: nat)

  class Frames {
    const job: Job
    var asked: nat
    var tried: nat
    var ptsCounter: nat
    var written: nat
    var listed: seq<Entry>

    /** Entry k is frame k, under the name the template gives it. */
    ghost predicate Valid()
      reads this
    {
      && job.Valid() && |listed| == written <= job.cap
      && forall k :: 0 <= k < |listed| ==>
          listed[k].index == k && Some(listed[k].path) == ExpandPath(job.tmpl, job.ntok, k)
    }

    function Now(): Tally
      reads this
    {
      Tally(asked, tried, ptsCounter, written)
    }

    ghost predicate Distinct()
      reads this
    {
      forall i, j :: 0 <= i < j < |listed| ==> listed[i].path != listed[j].path
    }

    constructor (job: Job)
      requires job.Valid()
      ensures Valid() && this.job == job && Now() == START
    {
      this.job := job;
      asked, tried, ptsCounter, written, listed := 0, 0, 0, 0, [];
    }

    /** write_frame. */
    method WriteFrame(path: string) returns (rc: Code)
      requires Valid() && written < job.cap && Some(path) == ExpandPath(job.tmpl, job.ntok, written)
      modifies `tried, `written, `listed
      ensures Valid() && tried == old(tried) + 1 && rc == job.writes(old(tried))
      ensures listed == if rc == Ok then old(listed) + [Entry(path, old(written))] else old(listed)
    {
      rc := job.writes(tried);
      tried := tried + 1;
      if rc == Ok {
        listed := listed + [Entry(path, written)];
        written := written + 1;
      }
    }

    /** The loop of both pulls. */
    method PullFrames(draining: bool) returns (rc: Code)
      requires Valid()
      modifies `asked, `tried, `written, `listed
      ensures Valid() && old(listed) <= listed
      ensures Step(Now(), rc) == job.Pull(draining, old(Now()))
    {
      hide ExpandPath, Pieces, Tokens;
      while written < job.cap
        invariant Valid() && old(listed) <= listed
        invariant job.Pull(draining, Now()) == job.Pull(draining, old(Now()))
        decreases job.cap - written
      {
        var r := job.frames(asked);
        asked := asked + 1;
        if r != Frame {
          return if r == Broken && !draining then Other else Ok;
        }
        var path := ExpandPath(job.tmpl, job.ntok, written);
        if path.None? {
          return Other;
        }
        rc := WriteFrame(path.value);
        if rc != Ok {
          return;
        }
      }
      rc := Ok;
    }

    /** emit_one: pushes a picture and writes everything the graph then has ready, up to the cap. It
        goes through exactly when the push, the graph, every name and every write does. */
    method EmitOne() returns (rc: Code)
      requires Valid()
      modifies `asked, `tried, `ptsCounter, `written, `listed
      ensures Valid() && old(listed) <= listed && Step(Now(), rc) == job.Emit(old(Now()))
      ensures rc == Ok <==>
        && job.accepts(old(ptsCounter)) == Ok && !job.Fails(old(asked), job.cap - old(written))
        && job.Writable(old(written), old(tried), job.Ready(old(Now())))
      ensures rc == Ok ==>
        && ptsCounter == old(ptsCounter) + 1 && asked == job.Stop(old(asked), job.cap - old(written))
        && tried - old(tried) == written - old(written) == job.Ready(old(Now()))
    {
      hide Job.Pull, Job.Fails, Job.Writable, Job.Stop, Job.Yield;
      job.PullIsExact(false, Now().(pushed := ptsCounter + 1));
      ptsCounter := ptsCounter + 1;
      rc := job.accepts(ptsCounter - 1);
      if rc == Ok {
        rc := PullFrames(false);
      }
    }

    /** The end of a scene job's graph: its input is closed and its last frames are written. A graph that
        fails there counts as one that has no more frames. */
    method Drain() returns (rc: Code)
      requires Valid() && written < job.cap
      modifies `asked, `tried, `written, `listed
      ensures Valid() && old(listed) <= listed && Step(Now(), rc) == job.Close(old(Now()))
      ensures rc == Ok <==>
        (job.flush == Ok || job.flush == Eof) && job.Writable(old(written), old(tried), job.Ready(old(Now())))
      // so it hides a failure exactly when the graph fails before the room runs out
      ensures rc == Ok ==>
        (job.Fails(old(asked), job.cap - old(written)) <==> asked > old(asked) && job.frames(asked - 1) == Broken)
    {
      hide Job.Pull, Job.Fails, Job.Writable, Job.Ready;
      rc := job.flush;
      job.PullIsExact(true, Now());
      if rc != Ok && rc != Eof {
        return;
      }
      ghost var before := Now();
      rc := PullFrames(true);
      if rc == Ok {
        job.DrainHidesFailure(before);
      }
    }

    /** grab_at for each target in turn: the found picture is emitted, and any failure is the job's. */
    method GrabTargets(targets: seq<Find>) returns (rc: Code, sought: nat)
      requires Valid()
      modifies `asked, `tried, `ptsCounter, `written, `listed
      ensures Valid() && sought <= |targets|
      ensures Step(Search(sought, Now()), rc) == job.Seek(targets, Search(0, old(Now())))
    {
      hide Job.Emit, Job.Fails, Job.Writable, Job.Stop, Job.Ready;
      sought := 0;
      while sought < |targets| && written < job.cap
        invariant Valid() && sought <= |targets|
        invariant job.Seek(targets, Search(sought, Now())) == job.Seek(targets, Search(0, old(Now())))
        decreases |targets| - sought
      {
        sought := sought + 1;
        match targets[sought - 1] {
          case Missing => rc := Ok;
          case Failed => rc := Other;
          case Found => rc := EmitOne();
        }
        if rc != Ok {
          return;
        }
      }
      rc := Ok;
    }

    /** The inner loop of grab_scene: what the decoder makes of one packet. */
    method HearPictures(v: Video, from: nat, ghost s: Reel) returns (rc: Code, heard: nat)
      requires Valid() && s.heard == from && s.tally == Now()
      modifies `asked, `tried, `ptsCounter, `written, `listed
      ensures Valid() && Step(s.(heard := heard, tally := Now()), rc) == job.Hear(v, s)
    {
      hide Job.Emit, Job.Fails, Job.Writable, Job.Stop, Job.Ready;
      heard := from;
      while true
        invariant Valid() && job.Hear(v, s.(heard := heard, tally := Now())) == job.Hear(v, s)
        decreases |v.receives| - heard
      {
        heard := heard + 1;
        rc := v.Receive(heard - 1);
        if rc != Ok {
          return;
        }
        rc := EmitOne();
        if rc != Ok || written >= job.cap {
          return;
        }
      }
    }

    /** Its outer loop: the packets. */
    method FeedDecoder(v: Video) returns (rc: Code, read: nat, sent: nat, heard: nat)
      requires Valid()
      modifies `asked, `tried, `ptsCounter, `written, `listed
      ensures Valid() && Step(Reel(read, sent, heard, Now()), rc) == job.Feed(v, Reel(0, 0, 0, old(Now())))
    {
      hide Job.Hear;
      rc, read, sent, heard := Ok, 0, 0, 0;
      while written < job.cap
        invariant Valid() && rc == Ok && read <= |v.packets|
        invariant job.Feed(v, Reel(read, sent, heard, Now())) == job.Feed(v, Reel(0, 0, 0, old(Now())))
        decreases |v.packets| - read
      {
        if read == |v.packets| {
          return v.last, read + 1, sent, heard;
        }
        read := read + 1;
        if v.packets[read - 1].Elsewhere? { continue; }
        rc, sent := v.sends(sent), sent + 1;
        if rc != Ok {
          return;
        }
        rc, heard := HearPictures(v, heard, Reel(read, sent, heard, Now()));
        if rc == Retry {
          rc := Ok;
        }
        if rc != Ok {
          return;
        }
      }
    }

    /** The pictures the flushed decoder still has. */
    method HearRest(v: Video, from: nat, ghost s: Reel) returns (rc: Code, heard: nat)
      requires Valid() && s.heard == from && s.tally == Now()
      modifies `asked, `tried, `ptsCounter, `written, `listed
      ensures Valid() && Step(s.(heard := heard, tally := Now()), rc) == job.FlushDecoder(v, s)
    {
      hide Job.Emit, Job.Fails, Job.Writable, Job.Stop, Job.Ready;
      rc, heard := Ok, from;
      while written < job.cap
        invariant Valid() && rc == Ok
        invariant job.FlushDecoder(v, s.(heard := heard, tally := Now())) == job.FlushDecoder(v, s)
        decreases |v.receives| - heard
      {
        heard := heard + 1;
        rc := v.Receive(heard - 1);
        if rc != Ok {
          return;
        }
        rc := EmitOne();
        if rc != Ok {
          return;
        }
      }
    }

    /** grab_scene. Codes out of emit_one go through the resets meant for the decoder's. */
    method GrabScene(v: Video) returns (rc: Code)
      requires Valid() && Now() == START
      modifies `asked, `tried, `ptsCounter, `written, `listed
      ensures Valid() && Step(Now(), rc) == job.WholeScene(v)
    {
      hide Job.Feed, Job.FlushDecoder, Job.Close, Job.Fails, Job.Writable;
      var read, sent, heard;
      rc, read, sent, heard := FeedDecoder(v);
      if rc == Eof {
        rc := Ok;
      }
      if rc != Ok {
        return;
      }
      rc, heard := HearRest(v, heard, Reel(read, sent, heard, Now()));
      if rc == Retry || rc == Eof {
        rc := Ok;
      }
      job.NoRoomCloses(Now());
      if rc == Ok && written < job.cap {
        rc := Drain();
      }
    }

    /** A whole job. A seeking job succeeds exactly when everything it came to did, and then it has listed
        every frame the graph yielded. A scene job succeeds as SceneSucceedsIff says, whatever came to
        Retry or Eof on the way, and has lost something exactly when a push or a write did. Every
        file listed has a path of its own, as long as the graph of a seeking job is one-for-one. */
    method Run(sel: Selector) returns (rc: Code)
      requires Valid() && Now() == START
      modifies `asked, `tried, `ptsCounter, `written, `listed
      ensures Valid()
      ensures !job.MayName(sel) ==> rc != Ok && listed == []
      ensures job.MayName(sel) && sel.Scene? ==>
        var before := job.BeforeClose(sel.video).at;
        && (rc == Ok <==> job.Survives(sel.video, before) && job.Closes(before.tally))
        && (rc == Ok ==>
              && ptsCounter == sel.video.Pictures(before.heard)
              && tried == job.Yield(0, asked) && |listed| == job.Written(tried)
              && (job.Complete(Now()) <==> !job.Swallowed(Now())))
      ensures job.MayName(sel) && sel.Scene? && rc == Ok ==> job.WentToTheEnd(sel.video, Now())
      ensures job.MayName(sel) && sel.Seeks? ==>
        var sought := job.WholeSearch(sel.targets).at.sought;
        && (rc == Ok <==> job.Sound(true, Now()) && job.NoneFailed(sel.targets, sought))
        && (rc == Ok ==>
              && |listed| == tried == job.Yield(0, asked)
              && ptsCounter == job.Count(sel.targets[..sought]) && (written == job.cap || sought == |sel.targets|))
      ensures rc == Ok && (sel.Scene? || job.ntok == 1 || job.OneForOne()) ==> Distinct()
    {
      hide ExpandPath, Pieces, Tokens, Job.Seek, Job.WholeScene, Job.BeforeClose, Job.Survives, Job.Closes,
        Job.Sound, Job.OneForOne, Job.Yield, Job.Written, Job.Complete, Job.Swallowed, Job.Count,
        Job.WentToTheEnd;
      if !job.MayName(sel) {
        return Other;
      }
      match sel {
        case Seeks(targets) =>
          var sought;
          rc, sought := GrabTargets(targets);
          job.SeekSucceedsIff(targets);
          if job.OneForOne() {
            job.OneFilePerTarget(targets, Search(0, START));
          }
        case Scene(v) =>
          rc := GrabScene(v);
          job.SceneSucceedsIff(v);
          if rc == Ok {
            job.SceneCompleteIff(v);
            job.SceneGoesToTheEnd(v);
          }
      }
      if job.ntok == 1 {
        PathsAreDistinct();
      }
    }

    lemma PathsAreDistinct()
      requires Valid() && job.ntok == 1
      ensures Distinct()
    {
      forall i, j | 0 <= i < j < |listed| ensures listed[i].path != listed[j].path {
        if listed[i].path == listed[j].path {
          SamePathSameIndex(job.tmpl, i, j);
        }
      }
    }
  }

  // ---- interval targets -------------------------------------------------------------

  const MAX_TARGETS: nat := 4096

  /** parse_select for an interval: every multiple of the step inside the input, up to the caps. */
  method IntervalTargets(step: real, duration: Option<real>, cap: nat) returns (targets: seq<real>)
    requires step > 0.0
    ensures |targets| <= cap && |targets| <= MAX_TARGETS
    ensures forall k :: 0 <= k < |targets| ==> targets[k] == k as real * step
    ensures duration.Some? ==> forall t <- targets :: t < duration.value
    ensures |targets| < cap && |targets| < MAX_TARGETS ==>
              duration.Some? && |targets| as real * step >= duration.value
  {
    targets := [];
    var t := 0.0;
    while (duration.None? || t < duration.value) && |targets| < cap && |targets| < MAX_TARGETS
      invariant |targets| <= cap && |targets| <= MAX_TARGETS && t == |targets| as real * step
      invariant forall k :: 0 <= k < |targets| ==> targets[k] == k as real * step
      invariant duration.Some? ==> forall t <- targets :: t < duration.value
      decreases cap - |targets|
    {
      targets := targets + [t];
      t := t + step;
      assert |targets| as real * step == (|targets| - 1) as real * step + step;
    }
  }
}
