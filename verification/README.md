# Verified model of the engine's timelines, demux loop and bridge

The project models the parts of this repository that have state, branching and bounded arithmetic,
and proves what their comments and documentation promise. libav itself is an oracle everywhere: a
demuxer, a decoder, a graph output or an encoder is a series of answers, endless or not, and any
series is allowed unless a statement says otherwise. Time rescaling is exact rational arithmetic
rounded to nearest, halves away from zero. Timestamps are 64-bit, and the unknown timestamp is the
least of them, as it is in libav.

Four areas are covered.

* **`process`, the timeline and the demux loop** (`src/process.c`).
  `Timeline`, `Windows` and `MuxFixup` hold the arithmetic and the guard in front of every muxer;
  `CopyLane`, `EarlyEof`, `SubtitleLane`, `Chapters` and `EncoderLane` are the lanes with their
  output windows; `GraphInput`, `Sinks` and `DemuxLoop` are the engine that drives them, and `Delivery`
  follows a copied stream from the demuxer through the lane to the muxer. `MapSpec` is the grammar of
  an output's `map` entries.
* **The bridge** (`src/nativeio.c`, `internal/ipchost/host.go`). `Wire` is its integers, `Host` what a
  host session does, `HostServer` the host's own loop, `Channel` a connection that cuts both
  directions into arbitrary pieces, to an honest host or to anyone at all, `Client` the engine's file
  calls, `Dial` version negotiation and the operations that need it, `Sessions` what a whole session finds
  in a file and leaves there. `LocalFile` is the plain file the bridge has to be indistinguishable from. `Concat` and `PlaylistSource` are the playlist in memory.
* **The Matroska fixtures** (`internal/fixture/matroska.go`): `Ebml`, `ChapterAtoms`, `Matroska` and
  `JitteredAudio`, each with a reader written from RFC 8794 (section 4) and RFC 9559.
* **Still images and progress** (`src/frames.c`, `src/progress.c`): `FrameNames` is the naming of a job's
  files, `FrameJob` the job, and `Progress` the progress channel.

Code that updates state is modelled as classes and loops, and each method is proved against a
specification function or an outright property; the lemmas then say what that function does over
every input or every run.

## Where the code does not do what one would expect

Each of these came out of a proof. The members named state it, most of them as an exact condition,
some with a concrete input.

* `write_sub_pkt`, under `copy_ts` with a seek, cuts an event that begins before source time zero and
  is still visible after it at zero instead of at the seek (`SubtitleLane.WrittenIsIntended`,
  `SubtitleLane.CutAtZeroExample`).
* The window in front of an encoder and the one behind it agree on all stamps from zero on if and only if
  the seek starts on a tick of the encoder's time base; otherwise, under `copy_ts`, a frame can be encoded
  and its packet thrown away, although the comment at `src/process.c:888-890` says the two agree
  (`EncoderLane.SameCutIffWholeTicks`, `EncoderLane.OffTickSeekLosesAFrame`). Before zero they also
  differ on the stamps that are half a microsecond off (`EncoderLane.WholeTicksSameCutIff`,
  `EncoderLane.EarlyStampSplits`).
* `copy_chapters` turns a chapter round exactly when the window ends before it starts, which takes
  `copy_ts` and an `end` before the seek, and leaves it no time exactly when the window has none
  (`Chapters.ClippedForwardIffWindow`, `Chapters.WindowLasts`, `Chapters.BackwardsChapter`).
* The one-second margin of the early-EOF threshold is exact: a copy lane can lose packets as soon as
  its reach past the threshold's base and the stream's lag exceed it (`EarlyEof.MarginIsExact`).
* A packet without a dts resets the muxer guard, and saturation at the end of time defeats it
  (`MuxFixup.UnknownDtsResets`, `MuxFixup.FixedIsAdmissible`).
* The host answers an Exists for a refused name with a zero status, because it sets the status after
  sending it; the engine is right only because it insists on nine bytes (`Dial.Dialler.Check`).
* `afio_session` checks that the answered version is at least 2 but, unlike `afio_dial_at`, not that it
  is at most the announced one, so a peer that answers 3 to a 2 is taken at its word
  (`Dial.Dialler.Session`, `Dial.SessionVersionInRange`, `Dial.SessionBelievesThree`).
* An EBML length of 2^56 or more shares a byte with its own marker and does not read back
  (`Ebml.VintReadsBack`).
* A scene job lets pass what it should fail on: the resets of `AVERROR(EAGAIN)` and `AVERROR_EOF` at
  `src/frames.c:345`, `348` and `360` are meant for the decoder, but the codes of `emit_one` go through
  them too. A write that answers "not yet" loses its frame, a push that answers "nothing more" its
  picture, and the job still succeeds; it has lost something exactly when a push or a write came to one
  of those codes (`FrameJob.Job.SceneCompleteIff`, `FrameJob.SwallowedWriteExample`,
  `FrameJob.RefusedPushExample`). A seeking job fails on every code.
* The last drain of a scene job takes a graph failure for the end of the graph
  (`FrameJob.Frames.Drain`, `FrameJob.BrokenDrainExample`).
* `push_frame` subtracts a frame's rebase without saturating, and the distance of two media stamps need
  not fit (`GraphInput.PositionIsDistanceIff`, `GraphInput.FarFrameWraps`).

## Model

| member | source | states |
|---|---|---|
| `Timeline.TsAdd` | src/process.c:217-221 | The sum saturates: it is the 64-bit value nearest to the exact one, and no intermediate can wrap. |
| `Timeline.TsSub` | src/process.c:223-227 | The same for a difference. |
| `Timeline.ClampIsNearest` | src/process.c:213-227 | What saturating means: no 64-bit value is nearer to the exact result. |
| `Timeline.Median3` | src/process.c:229-235 | The result is one of the three values, with one of the other two on either side of it. |
| `Timeline.RoundNearIsNearest` | src/process.c:217-235 | The rescale used everywhere is the nearest whole number to the exact quotient, halves away from zero. |
| `MuxFixup.Output.Fixup` | src/process.c:256-296 | The guard changes the packet as specified, records exactly its own stream's last dts, and leaves packet and table alone for an index outside the table; what the specification means is said by the rows below. |
| `MuxFixup.FixedOrdersStamps` | src/process.c:264-291 | Every packet that carries both stamps leaves a timestamped muxer's guard with dts <= pts, whatever its media type. |
| `MuxFixup.FixedKeepsKnowledge` | src/process.c:267-291 | No known stamp becomes unknown and no unknown stamp is invented. |
| `MuxFixup.FixedIsAdmissible` | src/process.c:276-292 | The dts handed on is one the muxer accepts exactly when any such dts exists, which is unless a strict muxer's last dts is already the end of time. |
| `MuxFixup.FixedIsLeast` | src/process.c:280-291 | The clamp yields the least admissible dts not before the packet's own. |
| `MuxFixup.FixedMovesPts` | src/process.c:280-291 | Of a packet in order the pts is its own, or the new dts if that has passed it, and the dts is never moved back. |
| `MuxFixup.FixedSparesOthers` | src/process.c:256-292 | A muxer without timestamps gets packets as they are, and a stream that is not paced only has a dts past its pts put right, both stamps then being one value between the two. |
| `MuxFixup.FixedGuess` | src/process.c:267-275 | A dts past its pts is pulled back to the pts, or to the first stamp the muxer would take. |
| `MuxFixup.FixedLeavesValid` | src/process.c:267-292 | A packet that is already ordered and admissible passes unchanged. |
| `MuxFixup.LastNeverFalls` | src/process.c:295 | Over a run segment in which a stream's packets all carry dts, its recorded dts never falls below what was muxed at the start. |
| `MuxFixup.MuxedDtsAdvances` | src/process.c:240-296 | Over such a segment, interleaved with any other streams, the muxed dts never steps back, and strictly advances on a strict muxer while the recorded dts is below INT64_MAX. |
| `MuxFixup.UnknownDtsResets` | src/process.c:295 | A packet with unknown dts resets the guard: the next stamp of the stream may step back. |
| `Windows.Micros` | src/process.c:345-349 | A seconds value becomes the whole microseconds not above it, inside the range the spec's bound guarantees. |
| `Windows.JobSeekOffset` | src/process.c:738-743 | The start of the first input that is seeked, none before it being seeked, or 0 when none is. |
| `Windows.CutLasts` | src/process.c:1460-1471 | A window ends its duration after where the thing it cuts starts, on either clock, or its end after that, or with copy_ts after source zero; to within the microsecond cut off. |
| `Windows.OutputCutoffIsCut` | src/process.c:745-757 | On its own timeline an output stops where its window is cut on the source, less what its clock subtracts. |
| `Windows.InputCutoff` | src/process.c:2107-2122 | The threshold is unlimited exactly when some output has no window; otherwise it is one second past the latest cut, and past every output's. |
| `CopyLane.Rebases.WriteCopyPkt` | src/process.c:1412-1503 | A copied packet is dropped exactly when it is past its lane's cutoff, each stamp of a survivor and its filled-in duration land where specified, and only this pair's rebase can change; the rows below say where that is. |
| `CopyLane.RebaseIsFixed` | src/process.c:1452-1458 | From the pair's first timed packet on, the rebase never changes, whatever streams the packets belong to. |
| `CopyLane.KeptIsDecodeClosed` | src/process.c:1412-1471 | For a stream with non-decreasing dts the kept packets are closed under decode order: whatever precedes a kept packet is kept. |
| `CopyLane.LandsNearSourceTime` | src/process.c:1473-1502 | Without saturation a packet lands within half an output tick of its source time under copy_ts, and otherwise within that and half a source tick of its source time less the rebase. |
| `CopyLane.EachStampLands` | src/process.c:1473-1502 | Of a packet handed on, the pts is within the bound of where its own pts is due and the dts of where its own dts is, each by itself; an unknown stamp stays unknown. |
| `CopyLane.FirstLandsAtZero` | src/process.c:1452-1458 | Without copy_ts the packet that brings the pair its rebase lands at zero by its pts, or without one by its dts, to within that bound and half a microsecond. |
| `CopyLane.UntimedPasses` | src/process.c:1412-1503 | A packet with no stamp at all is kept, brings no rebase and stays untimed. |
| `CopyLane.FilledLasts` | src/process.c:1486-1500 | A missing duration is one frame, or one block of samples, of the source stream to within half a tick. |
| `CopyLane.DurationLands` | src/process.c:1486-1502 | And it lands within half an output tick of what it lasted. |
| `CopyLane.OffsetsArePreserved` | src/process.c:1473-1502 | Offsets between copied streams of one pair survive, with copy_ts or without, to the sum of those bounds. |
| `CopyLane.LandingKeepsOrder` | src/process.c:1473-1502 | Rebase and rescale keep dts order and dts <= pts. |
| `EarlyEof.LaneCutoffIsCutPlusReach` | src/process.c:1460-1471 | The lane's cutoff is the threshold's own cut plus how far the captured rebase exceeds the input's base (nothing for an absolute end). |
| `EarlyEof.MarginSuffices` | src/process.c:2107-2122 | For duration, end, and end with copy_ts, and any packets of the input with the rebase they themselves bring: with reach plus lag within the margin, every packet the lane would have kept is read before the input is ended. |
| `EarlyEof.MarginIsExact` | src/process.c:2122 | For one windowed output nothing is ever lost if and only if reach plus lag is at most one second and one microsecond; beyond that three packets, the first of which brings the rebase, show the loss. |
| `SubtitleLane.Clip` | src/process.c:1698-1749 | The branches of write_sub_pkt compute the specified interval, or drop the event. |
| `SubtitleLane.WriteSub` | src/process.c:1698-1765 | The same from the job's window and seek, for duration, end and copy_ts; what it shows is the intended cue if and only if the event is not in the family cut at zero, and the packet starts within half an output tick of that cue and ends within one. |
| `SubtitleLane.WrittenIsIntended` | src/process.c:1698-1749 | What the branches compute is the event cut to [seek, cutoff), shifted by the seek unless copy_ts, with an uncut duration kept as it came - if and only if the event is not in the family cut at zero. |
| `SubtitleLane.EventIsOn` | src/process.c:1701-1706 | An event is on from its display start to its display end, in milliseconds from its pts or, without one, from zero. |
| `SubtitleLane.InstantIsShownInside` | src/process.c:1746-1749 | An event that lasts no time is shown, at its own start and as it came, exactly while the window is on. |
| `SubtitleLane.IntendedIsIntersection` | src/process.c:1698-1749 | Instant by instant, an event that lasts is shown exactly while it and the window are both on. |
| `SubtitleLane.SameStretchSameCue` | src/process.c:1711-1715 | Windows given as duration, end or with copy_ts that describe the same stretch of source show the same stretch of every event. |
| `SubtitleLane.CutAtZeroExample` | src/process.c:1731-1744 | A concrete event that is shown from source zero although the output starts a minute in. |
| `Chapters.Output.CopyChapters` | src/process.c:1889-1921 | The loop appends exactly the carried list. |
| `Chapters.SelectedIsExact` | src/process.c:1894-1899 | The selection is exactly the chapters that meet the window, once each, in source order. |
| `Chapters.CarriedIsSelected` | src/process.c:1894-1918 | Entry k of the carried list is the k-th chapter that meets the window, clipped and shifted. |
| `Chapters.MeetsIsOverlap` | src/process.c:1898-1899 | For a non-empty window and chapter the two tests mean "shares an instant". |
| `Chapters.ClippedIsIntersection` | src/process.c:1901-1903 | The carried stretch is the intersection with the window, instant by instant, on the output's clock. |
| `Chapters.ClippedForwardIffWindow` | src/process.c:1898-1903 | A carried chapter starts before it ends if and only if seek < cutoff, and lasts no time if and only if they are equal. |
| `Chapters.WindowLasts` | src/process.c:1977-1981 | In terms of the job: seek < cutoff if and only if the output is open or its duration, or else its end, is a microsecond or more past where the window starts; cutoff < seek if and only if there is no duration and copy_ts keeps an end before the seek. |
| `Chapters.BackwardsChapter` | src/process.c:1977-1982 | A concrete chapter, seek and end that are carried as 60 s to 30 s. |
| `Chapters.Output.CarryChapters` | src/process.c:1977-1983 | The list an output carries is the one its own duration, end, copy_ts and the input's seek select. |
| `Chapters.CarriedForward` | src/process.c:1909-1910 | After the final rescale start <= end. |
| `Chapters.CarriedLandsNear` | src/process.c:1901-1918 | A carried chapter is the clipped stretch to within half a tick, under its own number and title. |
| `GraphInput.Pad.Push` | src/process.c:956-1012 | push_frame: what is dropped, what closes the pad and what fails; the stamps that entered the graph are always those of one shared origin, and nothing enters a closed pad. |
| `GraphInput.LandedIsExact` | src/process.c:956-1012 | The graph gets exactly the frames that are not dropped, in order, each at its own position. |
| `GraphInput.KeptIsExact` | src/process.c:959-966 | Those are the frames whose index is kept, once each, in order. |
| `GraphInput.DropsIff` | src/process.c:959-966 | Only an accurate seek drops frames, and exactly those before the tick it starts at, by the decoder's best guess or, without one, by the frame's own stamp. |
| `GraphInput.BestEffortWins` | src/process.c:957-960 | A stamped frame's position follows the best guess, whatever its own stamp says; one without a stamp stays without. |
| `GraphInput.TicksAreNear` | src/process.c:974-996 | Start and stamps are rescaled to within half a tick, and not at all for a source without a time base. |
| `GraphInput.OriginIsSettled` | src/process.c:966-972 | A later frame never moves the ones before it. |
| `GraphInput.FirstFrameDecides` | src/process.c:966-971 | The clip's zero is the requested start, or in fast mode the first frame landed on, whatever follows. |
| `GraphInput.ClipKeepsSpacing` | src/process.c:966-972 | Kept frames keep their spacing exactly, and an accurate clip starts at zero or later. |
| `GraphInput.PositionIsDistanceIff` | src/process.c:971 | A frame's stamp is its distance from the clip's zero if and only if that fits in 64 bits. |
| `GraphInput.FarFrameWraps` | src/process.c:971 | Two concrete frames, the later of which is put before the earlier. |
| `Sinks.Sink.Pull` | src/process.c:893-943 | One pull takes everything up to the first answer that stops it, fails exactly on a bad answer or a failed encode, encodes exactly the frames inside the window at their stamps, and sets done exactly at the end of the stream or the window. |
| `Sinks.KeptIsExact` | src/process.c:893-943 | The encoder is handed exactly the frames that are not past the window, in order, at their stamps. |
| `Sinks.StampIsKept` | src/process.c:913-940 | A stamp the sink set is the one encoded, a frame that has none and is no sound is encoded without, and no window ends at such a frame. |
| `Sinks.LengthLasts` | src/process.c:915-919 | An audio frame reaches its samples over its rate, to within half a tick. |
| `Sinks.UntimedAudioTiles` | src/process.c:913-919 | An untimed audio frame starts where the previous frame ended, across any number of pauses. |
| `Sinks.PastFromWindowTick` | src/process.c:925-931 | Every frame from the tick after the window's end on is past the window. |
| `Sinks.EndlessSinkEnds` | src/process.c:921-931 | An endless sink with rising stamps is past its window after no more frames than there are ticks between the first stamp and the end of the window. |
| `Sinks.EndlessSinkIsBounded` | src/process.c:921-931 | So with a window every pull of a sink that is endless from some answer on comes back, and the sink gets done, whatever it answered before. |
| `Sinks.NoWindowNoEnd` | src/process.c:921-931 | Without a window a pull of a sink that always has a frame never comes back, and the sink is never done. |
| `EncoderLane.WindowedOutputEnds` | src/process.c:887-931 | A sink has an end to its window exactly when its output has a duration or an end, and then an endless one gets done. |
| `EncoderLane.Encoder.Finish` | src/process.c:784-819 | A packet out of the encoder is dropped exactly when its restored time is past the window, and otherwise reaches the muxer shifted, filled and rescaled. |
| `EncoderLane.Encoder.Drain` | src/process.c:759-825 | drain_encoder hands the muxer exactly the surviving packets in order and succeeds exactly when the encoder was sound and the muxer took every one of them; otherwise it has handed over a prefix. |
| `EncoderLane.SurvivingIsExact` | src/process.c:780-825 | What survives is exactly the packets that are not past the window, in order. |
| `EncoderLane.ToMuxerLands` | src/process.c:784-819 | Each stamp of a packet handed on lands by itself near where it is due, pts as pts and dts as dts, and its duration near what it lasts. |
| `EncoderLane.EncodedLandsNear` | src/process.c:784-819 | Without saturation an encoded packet lands within half an output tick, and under copy_ts half an encoder tick more, of its own time plus the seek that copy_ts restores. |
| `EncoderLane.EncodedKeepsOrder` | src/process.c:784-819 | Restoring and rescaling keep dts order and dts <= pts. |
| `EncoderLane.SameCutIffWholeTicks` | src/process.c:785-797 | The window on frames and the window on packets are the same cut, for every non-negative stamp and every cutoff, if and only if the seek is a whole number of encoder ticks. |
| `EncoderLane.WholeTicksSameCutIff` | src/process.c:785-797 | With such a seek, and for any stamp at all, the two are the same cut if and only if the stamp is not a half microsecond before zero that the seek brings past it. |
| `EncoderLane.EarlyStampSplits` | src/process.c:785-797 | A concrete stamp on which the two windows differ although the seek is on a tick. |
| `EncoderLane.SinkAndEncoderAgree` | src/process.c:888-931 | In the engine's own saturating arithmetic, for stamps of either sign that fit: a frame gets past the first window exactly when its packet gets past the second, without copy_ts always, with it for a seek on a tick and a stamp that is not such a half. |
| `EncoderLane.OffTickSeekLosesAFrame` | src/process.c:785-797 | A concrete frame that is encoded and whose packet is then thrown away. |
| `DemuxLoop.RouteIsExact` | src/process.c:1540-1547 | A consumer's route is exactly its stream's packets, once each, in demux order. |
| `DemuxLoop.EveryFrame` | src/process.c:1015-1029 | The frames a graph input gets are all those its decoder makes of each packet, packet after packet. |
| `DemuxLoop.HandOut` | src/process.c:1540-1547 | copy_packet and sub_packet: the packet goes to every target wired to its stream and to no other, and the job goes on exactly when each of them took it. |
| `DemuxLoop.Engine.AllDone` | src/process.c:864-866 | The scan over the sinks. |
| `DemuxLoop.Engine.PullAll` | src/process.c:855-948 | Every sink that was not done was pulled until it had nothing ready or got done, none that was done has moved, and success means that nothing failed on the way. |
| `DemuxLoop.Engine.FeedPads` | src/process.c:1015-1029 | Every decoder wired to the stream, and no other, is sent the packet; on success it decoded it, the graph was offered all its frames and refused none. |
| `DemuxLoop.Engine.InputIsSpent` | src/process.c:1621-1645 | The answer is yes exactly when every sink is done and there is one, or every pad of this input is closed, and no copy or subtitle target takes packets of this input. |
| `DemuxLoop.Engine.ScanIsSpent` | src/process.c:1621-1645 | For an input that has not ended those closed pads were closed by the graph, so the scans tell whether anything can still take a packet. |
| `DemuxLoop.Engine.SpentStays` | src/process.c:1621-1645 | What cannot take a packet now never can again. |
| `DemuxLoop.Engine.FlushPads` | src/process.c:2309-2339 | The ended input is counted off once, its decoders are flushed into the graph and its pads closed; success means that each flush went through, no frame was refused and no closing failed. |
| `DemuxLoop.Engine.FlushSubs` | src/process.c:2343-2356 | The subtitle decoders of the input are flushed, and a failure is not lost. |
| `DemuxLoop.Engine.EndInput` | src/process.c:2294-2358 | Ending an input keeps the loop's invariant, ends that input only, and lowers the measure. |
| `DemuxLoop.Engine.TakePacket` | src/process.c:2360-2363 | A packet goes to the graph, the copy targets and the subtitle targets; the invariant is kept and the measure falls. |
| `DemuxLoop.Engine.Turn` | src/process.c:2262-2363 | One input's turn: nothing reverts (eof, closed, done), at most this input ends, the invariant is kept, the measure falls, and without a failure of libav's the job goes on. |
| `DemuxLoop.Engine.Round` | src/process.c:2261-2364 | One pass over the inputs makes progress. |
| `DemuxLoop.Engine.Run` | src/process.c:2259-2367 | The loop terminates whenever every input is finite or feeds only a graph whose outputs get done. If it succeeds, every input was read to its own end or first past-cutoff packet, or else feeds no copy or subtitle target and either every sink was done or the graph itself had closed all its pads; every copy and subtitle target was handed exactly its stream's packets before that point; every decoder was sent its stream's packets and flushed, its graph input was offered every frame of them and refused none, and was closed; no answer taken from a sink was bad, and after the last drain every sink is through or has nothing ready. It succeeds if nothing fails. At every step remaining is the number of inputs not at eof. |
| `Delivery.ReadIsBeforeStop` | src/process.c:2269-2278 | The packets read before the threshold ends an input are exactly those in front of the answer the loop stops at. |
| `Delivery.CopyInput` | src/process.c:1412-1547 | Over a whole input, all streams of a pair together: each stream's muxer is handed exactly the packets the lane keeps, in order, where they land, with the rebase their own packets captured. |
| `Delivery.DeliveredIsExact` | src/process.c:1412-1547 | Entry by entry: the i-th packet handed on is the i-th kept one of the stream, where its own stamps land. |
| `Delivery.KeepsIsExact` | src/process.c:1412-1471 | The kept ones are exactly the stream's packets that are not past the cutoff. |
| `Delivery.CopiedStreamSurvives` | src/process.c:2107-2122 | With reach and lag within the margin, what the lane makes of the packets handed over before the input was ended is exactly what it would have made of the stream's packets in the whole input. |
| `Delivery.EngineDelivers` | src/process.c:2259-2367 | And so for every copy target when the loop has succeeded. |
| `Delivery.InFileIsSentIff` | src/process.c:240-296 | Whatever an output carries in between, a stamped stream is muxed exactly as it was handed over if and only if each dts is at most its pts and admissible after the one before. |
| `Delivery.DeliveredDtsAdvances` | src/process.c:240-296 | Where the packets of an output's stream, in order, are those the lane delivered and their dts land, the muxed dts never steps back, and strictly advances on a strict muxer below the end of time. |
| `Delivery.DeliveredIsOrderly` | src/process.c:1412-1503 | What the lane delivers of a stream in decode order is such a stream: for a non-strict muxer always, for a strict one if its dts advances and the output's time base is at least as fine. |
| `Delivery.FileCarriesTheStream` | src/process.c:2259-2367 | End to end: an input ended early within the margin, its packets handed over, kept, landed and muxed. The output is handed exactly what the lane makes of the stream in the whole input, carries it unchanged if and only if that is orderly, and does so for every stream in decode order that suits the muxer. |
| `MapSpec.ScanIsNumeral` | src/process.c:325-334 | Scanning takes a numeral exactly when one no larger than an int stands at the front, up to the first non-digit. |
| `MapSpec.ParseIsExact` | src/process.c:382-405 | The parser accepts exactly the grammar - N:v/a/s in either case, N:v/a/s:K and N:D, each index at most INT_MAX - with the grammar's reading. |
| `MapSpec.OneReading` | src/process.c:382-405 | Every accepted text has one reading. |
| `MapSpec.LettersPick` | src/process.c:388-392 | Either case of a type's letter picks it, and no other character picks any. |
| `MapSpec.PrintParses` | src/process.c:376-405 | A printed specifier parses back to itself. |
| `MapSpec.ResolveMapStream` | src/process.c:410-421 | A typed index K picks the stream with exactly K earlier streams of that type, and is not found exactly when there are too few. |
| `Wire.PutInto` | src/nativeio.c:189-190 | put32/put64 fill their bytes of the buffer, lowest first, and touch no other. |
| `Wire.GetFrom` | src/nativeio.c:191-192 | get32/get64 gather the same bytes. |
| `Wire.GetPut` | src/nativeio.c:189-192 | Reading back what was put is the identity on every value that fits. |
| `Wire.PutGet` | src/nativeio.c:189-192 | And putting what was read gives the same bytes. |
| `Wire.PutDigit` | src/nativeio.c:189-190 | Byte i is the digit of weight 256^i: the lowest comes first. |
| `Wire.SignedIsTwosComplement` | src/nativeio.c:191-192 | A signed value is the unsigned one or that less 2^64, and negative exactly when the top bit is set. |
| `LocalFile.WriteThenRead` | internal/ipchost/host.go:534-537 | What a write puts into the file reads back, the cursor stands behind it, no other byte changes, a gap is zeros, and the file grows only as far as the write reaches. |
| `LocalFile.WritesJoin` | internal/ipchost/host.go:534-537 | Two writes in a row are one write of both: each moves the cursor. |
| `LocalFile.ReadsJoin` | internal/ipchost/host.go:498-521 | Two reads in a row are one read of both. |
| `LocalFile.ReadIsWhatIsThere` | internal/ipchost/host.go:498-521 | A read gives the bytes from the cursor on, as many as there are up to the count. |
| `LocalFile.SeeksJoin` | internal/ipchost/host.go:555-571 | Seeks from the cursor add up, those from the start or the end forget the ones before, and none touches the bytes. |
| `LocalFile.SeekLandmarks` | internal/ipchost/host.go:555-571 | Zero from the start is the first byte, k back from the end the last k; no other direction and no place before the start. |
| `LocalFile.WriteSeekRead` | internal/ipchost/host.go:523-571 | Going back over what was written reads it. |
| `Host.FrameLengthStable` | internal/ipchost/host.go:206-302 | Where a frame ends never depends on what follows it. |
| `Host.ServeAppend` | internal/ipchost/host.go:206-302 | Whatever has been served stays served: more input only adds to the output. |
| `Host.ServeOneMore` | internal/ipchost/host.go:206-302 | One whole frame after everything before it was consumed adds exactly its own reply. |
| `Host.SessionKeepsOnDisk` | internal/ipchost/host.go:410-571 | Whatever a driver sends: the open file of a session is on the disk as its reads and writes see it. |
| `Host.SessionOnlyAt` | internal/ipchost/host.go:410-583 | Once a session has asked for its file it touches no other, and one it opened for reading not even that. |
| `Host.ReadFaults` | internal/ipchost/host.go:462-521 | Which read a host told to vanish, or to fail, does it at, counted over all its sessions, and how in either version. |
| `HostServer.Server.RunSession` | internal/ipchost/host.go:206-302 | The session loop, for any bytes a driver sends before hanging up: output, disk, read count and reported failure are those of the specification, and a file still open is on the disk as it was last written. |
| `HostServer.Server.Greet` | internal/ipchost/host.go:206-229 | The preamble: refusal, and an answer from v2 up only. |
| `HostServer.Server.Frame` | internal/ipchost/host.go:252-300 | The switch on the tag, including what is refused before and after an Open. |
| `HostServer.Server.FileFrame` | internal/ipchost/host.go:460-583 | The switch of doFrame. |
| `HostServer.Server.DoOpen` | internal/ipchost/host.go:410-458 | doOpen: one status byte always; truncation on w; a missing file does not fail the session. |
| `HostServer.Server.DoMove` | internal/ipchost/host.go:325-362 | doMove: an atomic rename, or a refusal that changes nothing. |
| `HostServer.Server.DoExists` | internal/ipchost/host.go:369-405 | doExists, with the single zero byte of a refused name. |
| `HostServer.Server.DoRead` | internal/ipchost/host.go:462-521 | doFrame R with its injected faults: vanishing, failing, overstating. |
| `HostServer.Server.DoWrite` | internal/ipchost/host.go:523-553 | doFrame W, with the understated acknowledgement: the open file and the disk both hold what was written. |
| `HostServer.Server.DoSeek` | internal/ipchost/host.go:555-571 | doFrame S. |
| `Channel.Connection.WriteFull` | src/nativeio.c:178-187 | Every byte in order however the stream cuts them up, or failure after a proper prefix; nothing once shut down. |
| `Channel.Connection.ReadFull` | src/nativeio.c:155-164 | Exactly n bytes at the front of the buffer and nothing past them, or failure. |
| `Client.Calls.Read` | src/nativeio.c:329-365 | Against anyone: nothing is stored past the requested size, a failed, over-long, negative (v2) or truncated reply fails the call and kills the session, and any other result takes its reply exactly. Against an honest host: the local file's answer. |
| `Client.Calls.Write` | src/nativeio.c:367-392 | Any acknowledgement but the exact count fails the call and kills the session; an honest host's file, and with it its disk, ends as a local one would. |
| `Client.Calls.Seek` | src/nativeio.c:394-413 | The position answered is the position taken; an honest host answers as a local file, size requests included. |
| `Client.Calls.Drive` | src/nativeio.c:329-413 | Any sequence of calls on one session: an honest host answers them all as a byte array with a cursor would, leaves both directions empty and has that array on its disk; whoever answers, nothing succeeds after a failure and nothing more is sent or read. |
| `Client.AskRead` | internal/ipchost/host.go:462-521 | A read request to a faultless host adds exactly its reply and moves the cursor. |
| `Client.AskWrite` | internal/ipchost/host.go:523-553 | The same for a write. |
| `Client.AskSeek` | internal/ipchost/host.go:555-571 | The same for a seek. |
| `Client.AskSize` | internal/ipchost/host.go:573-578 | The same for the size. |
| `Client.EofOnlyAtEnd` | src/nativeio.c:352-353 | A zero read count means end of file and nothing else. |
| `Client.ReadTakesOnlyWhatFits` | src/nativeio.c:340-365 | Whoever wrote the reply: bytes are taken only if they are all there and fit, every cut-off reply is a failure, a zero count is the end, and no version takes more than another. |
| `Client.FaultyReadFails` | internal/ipchost/host.go:462-521 | Every fault a host can be told to inject into a read is seen as a failure. |
| `Client.UnderstatedWriteFails` | internal/ipchost/host.go:538-553 | So is an understated acknowledgement, although the bytes are on the disk. |
| `Client.ForceIsMasked` | src/nativeio.c:394-400 | The force flag of a seek changes nothing. |
| `Sessions.WrittenInPieces` | src/nativeio.c:367-392 | A file written in pieces is the file written at once, for any pieces. |
| `Sessions.SessionStoresPieces` | internal/ipchost/host.go:206-583 | A driver that opens a name for writing, writes any pieces and closes leaves exactly these on the disk, one after the other, under that name, and every other file as it was. |
| `Sessions.SessionReads` | internal/ipchost/host.go:206-583 | One that opens a name for reading finds what the disk holds, from the first byte, and whatever it asks for leaves the disk alone. |
| `Dial.PreambleServed` | internal/ipchost/host.go:206-229 | For every announced and maximum version the host answers exactly when the engine waits for an answer, so both agree where the first frame begins. |
| `Dial.Dialler.DialAt` | src/nativeio.c:204-271 | For every announced version and every peer: the agreed version is between 1 and the announced one, the announced version falls only by falling back to 1 with exactly one extra dial, and an open session stands on a frame boundary; an honest host is understood at the version both speak. |
| `Dial.Dialler.OpenAll` | src/nativeio.c:200-271 | Over a whole job the announced version never rises, and there is at most one dial more than files opened. |
| `Dial.Dialler.SessionPreamble` | src/nativeio.c:293-310 | It succeeds exactly when an answer arrives and is from v2 up, however large, and records that answer. |
| `Dial.Dialler.Session` | src/nativeio.c:279-326 | A Move or Exists frame goes out only on a connection that answered v2 or more, and from then on the job believes the version answered. |
| `Dial.SessionVersionInRange` | src/nativeio.c:297-310 | The version believed stays between 1 and the announced one if and only if no answer is above the announced one. |
| `Dial.SessionBelievesThree` | src/nativeio.c:297-310 | A concrete peer whose answer puts the version above what this engine speaks. |
| `Dial.Dialler.Check` | src/nativeio.c:808-825 | Present, absent and refused are told apart, although the host answers a refused name with a zero byte. |
| `Dial.Dialler.Move` | src/nativeio.c:830-847 | Success exactly when the host could move the file, and then the disk is the moved one. |
| `Dial.ExistsServed` | internal/ipchost/host.go:369-405 | What an Exists frame on a fresh session is answered with. |
| `Dial.MoveServed` | internal/ipchost/host.go:325-362 | What a Move frame on a fresh session is answered with, and what it does to the disk. |
| `Dial.MoveMoves` | internal/ipchost/host.go:325-362 | A move takes the bytes from one name to the other and touches nothing else. |
| `Dial.ExistsTells` | internal/ipchost/host.go:369-405 | A present file is answered with its size, an absent one without, a refused name with one byte, and none of them changes the disk. |
| `Concat.QuoteLength` | src/nativeio.c:16-20 | The length computed beforehand is the length of the quoted name. |
| `Concat.QuoteInto` | src/nativeio.c:24-34 | The buffer holds exactly the quoted name, and nothing else of it changed. |
| `Concat.Build` | src/nativeio.c:507-537 | The playlist is sized and written exactly; the list is refused exactly when a name holds a newline or a carriage return. |
| `Concat.ArgumentOfQuoted` | src/nativeio.c:11-34 | The ffconcat quoting rules undo the quoting exactly, whatever quotes and backslashes the name holds. |
| `Concat.PlaylistRoundTrip` | src/nativeio.c:507-529 | Reading the playlist returns the segment names, in order. |
| `PlaylistSource.Source.Read` | src/nativeio.c:461-469 | pl_read is a plain file's read, and stores nothing else. |
| `PlaylistSource.Source.Seek` | src/nativeio.c:471-478 | pl_seek is a plain file's seek to places that are there. |
| `Ebml.WriteVint` | internal/fixture/matroska.go:70-75 | The marker is set in place in the eight bytes of the length. |
| `Ebml.WriteUintEl` | internal/fixture/matroska.go:85-95 | The loop yields the minimal big-endian bytes, at least one. |
| `Ebml.VintReadsBack` | internal/fixture/matroska.go:70-75 | A printed length parses back under section 4 of RFC 8794 if and only if it is below 2^56. |
| `Ebml.ElReadsBack` | internal/fixture/matroska.go:78-82 | A printed element parses back to its id and payload, whatever follows, if and only if the payload is shorter than 2^56 - 1. |
| `Ebml.ChildrenConcat` | internal/fixture/matroska.go:208-214 | Concatenated runs of elements parse to the concatenated lists. |
| `Matroska.IndexPointsAtClusters` | internal/fixture/matroska.go:192-205 | Every index entry names the byte offset of a Cluster whose Timecode is its CueTime, for any front and number of clusters. |
| `Matroska.ClustersAndCues` | internal/fixture/matroska.go:192-203 | The loop grows clusters and index together, one cluster a second up to the last end. |
| `Matroska.WithChapters` | internal/fixture/matroska.go:116-206 | For every chapter list: refused exactly when one is not a usable range; otherwise the parsed file's index is right and the chapters read from it are the ones asked for. |
| `Matroska.LastIsLatest` | internal/fixture/matroska.go:116-206 | Where the clusters stop: no chapter ends later, and one ends then or there is none past zero. |
| `ChapterAtoms.Atoms` | internal/fixture/matroska.go:165-173 | The loop writes the atoms, numbered from one. |
| `ChapterAtoms.AtomReads` | internal/fixture/matroska.go:167-172 | One atom parses back to its number, start, end and title. |
| `ChapterAtoms.ChaptersReadBack` | internal/fixture/matroska.go:165-174 | Printed and parsed again, the chapters are the chapters, to the nanosecond. |
| `JitteredAudio.MatroskaJitteredAudio` | internal/fixture/matroska.go:275-357 | Arguments are refused exactly when unusable or too long; the whole file reads back as the packets asked for, at the cycled gaps, on a track of the rate, channels and depth asked for, with a declared duration that ends where the last packet does. |
| `JitteredAudio.PacketData` | internal/fixture/matroska.go:341-348 | The sample loops, running on from packet to packet. |
| `JitteredAudio.AskedAt` | internal/fixture/matroska.go:336-357 | Packet i starts its gap after packet i - 1, and holds the samples that follow on from it. |
| `JitteredAudio.SampleAt` | internal/fixture/matroska.go:341-348 | Sample k stands k sample frames into its packet, once for every channel, low byte first. |
| `JitteredAudio.Span` | internal/fixture/matroska.go:294-297 | The declared span is the time of the last packet. |
| `JitteredAudio.TimesRise` | internal/fixture/matroska.go:286-290 | Later packets start later, however the gaps are cycled. |
| `FrameNames.CountConversions` | src/frames.c:64-80 | The pointer walk counts the integer conversions, or refuses anything else. |
| `FrameNames.TemplateReads` | src/frames.c:60-80 | A template reads as the pieces it spells - doubled percent signs, flags, width, precision and letter - so it counts as many conversions as were written. |
| `FrameNames.FormatTellsIndex` | src/frames.c:93-99 | Whatever the flags, width, precision and radix (section 7.21.6.1 of C11), the formatted text still says which index it was made from. |
| `FrameNames.FormatFills` | src/frames.c:93-99 | The text fills its field and loses nothing to it; padding goes behind with the minus flag and in front without. |
| `FrameNames.PaddingExamples` | src/frames.c:93-99 | What zeros, spaces, a precision and the minus flag make of a 7. |
| `FrameNames.PrefixExamples` | src/frames.c:93-99 | And signs and the alternate forms. |
| `FrameNames.ExpandIsInjective` | src/frames.c:93-99 | A template with one conversion expands differently for every index. |
| `FrameNames.SamePathSameIndex` | src/frames.c:93-99 | Expansions that fit the path buffer are distinct; one that does not fit is refused, not shortened. |
| `FrameJob.Frames.WriteFrame` | src/frames.c:233-257 | A frame is listed, under the next index, exactly when it was written. |
| `FrameJob.Job.StopIsExact` | src/frames.c:268-284 | Where a pull of the graph stops: everything before its last answer is a frame, and it stops short of the cap exactly at an answer that is none. |
| `FrameJob.Job.PullIsExact` | src/frames.c:262-286 | A pull goes through exactly when the graph does not fail within the room there is and every frame it has ready can be named and written; then all of them were written, once each. |
| `FrameJob.Frames.EmitOne` | src/frames.c:262-286 | The same for a pushed picture, which the graph must also take: what it asks, tries, writes and answers, in every case. |
| `FrameJob.Frames.Drain` | src/frames.c:362-387 | The last drain of a scene job goes through exactly when the graph takes the end of its input, or was closed before, and every name and write does; then the graph had failed exactly when the last answer taken was a failure. |
| `FrameJob.Job.DrainHidesFailure` | src/frames.c:371 | A drain that goes through would have failed as an ordinary pull exactly when the graph fails before the room runs out. |
| `FrameJob.BrokenDrainExample` | src/frames.c:371 | A concrete scene job whose graph fails at once: it succeeds with nothing written. |
| `FrameJob.Frames.GrabTargets` | src/frames.c:515-521 | The loop over the targets of a seeking job, target by target until the cap or the first failure. |
| `FrameJob.Job.SeekSucceedsIff` | src/frames.c:312-326 | A seeking job succeeds exactly when no search failed, the graph never did and every push, name and write went through; then every frame yielded is written, and each found picture was pushed, up to the cap. |
| `FrameJob.Job.SeekStopsAtCap` | src/frames.c:515-521 | No target is looked for once the job is full. |
| `FrameJob.Frames.GrabScene` | src/frames.c:330-389 | The packets, the decoder's answers, its flush and the drain, with each reset of a code where the source has it. |
| `FrameJob.Job.SceneSucceedsIff` | src/frames.c:330-389 | A scene job succeeds exactly when, up to the end of the graph's input, no push, write or answer of the decoder was a plain failure, no packet was refused with "not yet", the graph never failed, each frame had a name and the packets ran out at their end, and the close goes through as Drain says. |
| `FrameJob.Job.SceneCompleteIff` | src/frames.c:345-360 | In a scene job that succeeds every picture was pushed and every frame yielded was tried once, and the job has listed everything exactly when no push and no write came to EAGAIN or EOF. |
| `FrameJob.Job.SceneGoesToTheEnd` | src/frames.c:330-389 | A scene job that succeeds is full, or swallowed one of those codes, or has read its packets out, sent each of its stream's to the decoder and heard that out. |
| `FrameJob.Job.HearsItOut` | src/frames.c:344-349 | What one packet brings is heard up to the decoder's own answer, with the same exceptions. |
| `FrameJob.SwallowedWriteExample` | src/frames.c:345 | A concrete scene job whose one write answers EAGAIN: it succeeds, and the frame its graph yielded is not listed. |
| `FrameJob.RefusedPushExample` | src/frames.c:348 | A concrete scene job whose one picture is refused with EOF: it succeeds. |
| `FrameJob.Frames.Run` | src/frames.c:493-538 | The whole job, seeking or scene, succeeds exactly as those say, does not stop short, is refused before anything is done if a literal path would have to name several files, and lists its files at indices 0..n-1 under distinct paths (given one-for-one filtering for a literal path and a seek). |
| `FrameJob.IntervalTargets` | src/frames.c:420-433 | Every multiple of the step inside the input, up to the cap and the table. |
| `Progress.LineFits` | src/progress.c:57-62 | A record of 64-bit fields always fits the 160-byte buffer. |
| `Progress.LineReads` | src/progress.c:57-61 | A reader of the line finds each number under its own key. |
| `Progress.TotalsCount` | src/progress.c:83-90 | The totals are the number of video packets and the latest known time. |
| `Progress.SizesAdd` | src/progress.c:86 | And the sum of the sizes that are positive. |
| `Progress.ThrottleBounds` | src/progress.c:92-93 | Throttled records number at most one and one more for every 100 ms of media time. |
| `Progress.Emitter.Emit` | src/progress.c:54-81 | A line the device does not take whole is not a record, and nothing follows it. |
| `Progress.Emitter.Note` | src/progress.c:83-94 | The totals count the packet, records stay at least the interval apart, and one is missing only when not yet due. |
| `Progress.Emitter.Report` | src/progress.c:54-96 | Over a whole job: the channel is whole records and at most one partial line, no field decreases, the finishing record carries the true totals, and there are at most two records more than intervals. |

## Left out

- libav: decoding, encoding, filtering, demuxing, muxing and format negotiation are oracles; nothing is claimed about them.
- Exact rational rescaling stands for av_rescale_q; a result outside 64 bits is the unknown timestamp, which is how the engine sees it.
- Timestamp sums that the source leaves unsaturated and that would overflow in C: a frame's distance from its rebase wraps in the model where the sum does not fit (`GraphInput.PositionIsDistanceIff`); the shortened duration of a subtitle event with a negative duration is taken exactly.
- Bitstream filters of copied streams, and their flush at the end of the job: a copy target either takes a packet or fails.
- The drain of a finished sink (`AV_BUFFERSINK_FLAG_NO_REQUEST`), which only frees memory.
- Analysis metadata harvested at the sinks, and the encoder flush after the loop.
- `DemuxLoop.Engine.Run`: is stated for jobs in which every input is finite or feeds only outputs that get done; a job outside that never returns, as the comment at `src/process.c:1585-1589` says, and nothing is claimed about it.
- Frame durations rescaled at a graph input, and the picture type cleared before an encoder.
- The sine of the jittered audio: sample values are a parameter.
- `MatroskaAtTimecode`, one cluster at an arbitrary time, would only add an easy member.
- Floating point: seconds are exact reals, the eight-byte float encoding is a parameter, and interval targets are exact multiples where the source accumulates doubles.
- Symbolic links and containment: name resolution is a parameter of the host; so is which paths can be created.
- Several sessions at once on one host, and other processes changing its files while a session has one open.
- The host's list of opened names and its recorded errors, beyond whether a session failed.
- Sockets, timeouts, the sandbox, environment variables and memory management.
- The source time an image is listed with, and the pictures themselves: only which frames are written, and under which names.
- How `frames` seeks and decodes to one target: a search finds its picture, comes to nothing or fails. Scene jobs are modelled packet by packet, for inputs that end.
- Option dictionaries, JSON walking and printing, stderr text, reports, probing and capabilities.
