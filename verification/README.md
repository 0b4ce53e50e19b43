# Proofs about the FPVault recorder

FPVault is a video recorder for analog FPV cameras: firmware that captures, encodes and stores clips on an SD
card, and a desktop application that copies, repairs, joins and plays them and updates the firmware. This project
models the parts of both that promise something across many steps, and proves the promises with Dafny 4.11.
`dafny verify dfyconfig.toml` checks everything.

## What is modelled

**Crash-safe clips.** A clip is a sequence of bytes, a recording a sequence of single-byte writes, and a power cut
keeps any prefix of them over any old contents of the card. `AviFormat` defines chunks, scans and closed clips.
`AviWriter`, `AviTrace` and `AviRecorder` are the writer, with its 32-bit counters, its sticky error and failing
I/O. `AviOut` and `AviIngest` are the one-pass copy that reads in blocks of any split, `AviRepair` the two-pass
one, `AviFrames` the seek tables, `AviCheck` the index check, `AviJoin` and `AviJoinLaws` the lossless join, and
`AviLibrary` what follows for clips that were ingested first.
`AviCut` and `AviCrash` bring the two sides together: what the desktop makes of what the camera left. `AviGarbage`
says which old contents of a card do harm, and `AviExamples` has files on which the conditions of the laws fail.

**The debug log.** `DlogRing` is the ring in RAM with free-running 32-bit indices, `DlogCore` the log written in
place over a card that may refuse any call. `DlogView` states conservation over a value of the whole state, and
`DlogText` says when padding can be told from text.

**The RunCam parser.** `Runcam` has the CRC algebra, the leftmost-greedy definition of the frames in a stream, and
the byte machine that meets it.

**Firmware update.** `Dfu` is the board, `DfuHost` the desktop with resets and lost transfers at any point, `SpiNor`
a flash that can only clear bits and wraps within its page. The protocol is that of the USB Device Firmware Upgrade
specification 1.1, sections 6.1.1 to 6.1.5 and the state diagram of appendix A.

**Frames in flight.** `Pipeline` is the ring between the 1 kHz interrupt and the main loop, with the interrupt
between all steps of the consumer. `Capture` is the three-buffer ring against a decoder that latches addresses late
or misses them, and its watchdog.

**Clip names.** `DcfNames` are the names of the DCF layout (JEITA CP-3461) as both programs print and parse them,
`DcfCard` the scan at boot and the order of clips over any history of a card, and `DcfCamera` a camera whose every
power-up, clip and host visit is a step of such a history.

## Results that correct a promise

- The recorder promises that a power cut costs the frame in flight only. For a cut at any byte that holds if and only
  if the file starts like the recording, which only a cut inside the 224-byte header can spoil, and nothing behind
  the completed frames reads as another frame (`AviCrash.PromiseKept`). A cut inside the four size bytes of a chunk
  over zeros adds an empty frame (`AviGarbage.ZeroedCardBreaksPromise`), because the torn-frame drop looks at chunks
  of two bytes or more only. `AviGarbage.PromiseByOldBytes` says which old bytes decide.
- Ingest and repair differ on a last chunk of size 2 or 3 without an EOI, on chunks above 256 KB and on a last
  chunk whose pad is cut off. `AviRepair.IngestRefinesRepair` gives the exact condition, and
  `AviExamples.ShortTornFrameSplitsThem` a clip.
- The join promises to be lossless. A segment that ends inside the pad of its last chunk shifts all that follows
  by one to three bytes; `AviJoinLaws.JoinIsHomomorphism` and `AviJoinLaws.JoinIsAssociative` hold exactly without it,
  and ingested clips are always without it (`AviLibrary.IngestedClipsJoin`). `AviExamples.RaggedSegmentLosesFrames`
  is a pair of files that a join does not preserve.
- `src/dcf.h` lines 11-12 say that an index is never reused. It is, after the highest clips were deleted:
  `DcfCard.WhenAnIndexIsReused` says exactly when and `DcfCamera.DeletedIndexComesBack` is such a history. Clips on
  the card at one time never share one.
- Lines 15-16 there say that deletions and card swaps heal themselves. At the next power-up they do
  (`DcfCard.BootKeeps`), and not before. A session directory that is deleted while the session goes on is not made
  again: `DcfCamera.Camera.ClipStart` has the exact condition for a clip to be made, no deletion by a host changes it
  back (`DcfCamera.Camera.HostEdits`), and `DcfCamera.BecomesStuck` gets there. A card put in during a session loses a
  clip exactly when it has the planned path (`DcfCard.WhenAClipIsLost`, `DcfCamera.SwapLosesAClip`), and keeps its
  clips in order exactly when the plan is ahead of the others (`DcfCard.WhenOrderIsKept`).
- `src/capture.h` lines 48-50 call a finished buffer valid for the next two frames. The decoder is in it as soon as
  the address armed next is latched, and not before (`Capture.Ring.SafeIsLeftAlone`): in an ordinary run, with the
  second frame (`Capture.SafeIsOverwritten`).
- The pipeline's ring uses the remainder by 40 of 32-bit counters, and 2^32 is no multiple of 40. It is a queue for
  all frames but the last 16 before each wrap (`Pipeline.Ring.ConsumedInOrder`); one of those is lost if it is still
  unread when the frame 16 later is started, and never otherwise (`Pipeline.SlotsCoincide`, `Pipeline.Ring.Tick`).
  `Pipeline.WrapLosesAFrame` is a run in which it is.
- `src/pipeline.c` lines 240-247 wait for an encode in flight. The wait ends exactly if the ring is on and an interrupt
  finds the encode over (`Pipeline.Ring.Freeze`). Switched off before that, it goes on for ever
  (`Pipeline.FreezeWaitsForEver`).
- The desktop rejects the clip name of index 0000 that the firmware reads (`DcfNames.ParsersAgree`).
- An `abort` request takes a board with a failed status to idle without clearing the status (`DfuHost.AbortHidesAnError`).
  No update can start on it until a reset while no image is accepted, or until it refuses another block and so gets
  back to its error state (`DfuHost.WhatGivesItBack`).
- A board whose image was accepted and then aborted after a late block reboots with nothing staged and nothing
  written (`Dfu.EmptyBurn`).

## Model

| member | source | states |
|---|---|---|
| AviCrash.CrashRecovery | desktop/src/shared/avi/ingest.ts:126-221 | Cut a recording at any byte of any write, over any old contents: a file that starts like the recording, which it does from the end of the header on, is ingested as exactly the completed frames and what reads as chunks behind them; any other is never ingested as frames of this recording |
| AviCrash.PromiseKept | desktop/src/shared/avi/ingest.ts:184-221 | For a cut at any byte, the copy is the finalized clip of the completed frames, or of those and the frame in flight, if and only if the file starts like the recording and the bytes behind the completed frames do not read as other frames |
| AviCrash.PayloadArrived | src/avi.c:261-270 | Once the payload of the frame in flight is on the card, old bytes in its pad do no harm: the promise holds exactly when nothing is read behind it |
| AviGarbage.QuietCardKeepsPromise | src/avi.c:166-270 | When the old contents hold no EOI and nothing like a tag or a small size, and the file was reserved long enough, every cut behind the header keeps the promise, and a cut inside it does just if the file starts like the recording |
| AviGarbage.PromiseByOldBytes | desktop/src/shared/avi/ingest.ts:126-221 | For a cut at any byte the promise is decided by the part of the write in flight and the old bytes behind it: it holds exactly when the file starts like the recording and these bytes, read from their start, are no frame, one that is dropped, or the frame in flight |
| AviGarbage.QuietWhereReadKeepsPromise | desktop/src/shared/avi/ingest.ts:137-161 | Every cut behind the header keeps the promise when no tag, no possible size and no EOI stands just where one is read |
| AviGarbage.HeaderCutBreaksPromise | src/avi.c:224-230 | A new file cut inside the header write is never ingested as this recording |
| AviGarbage.TornSizeBreaksPromise | src/avi.c:233-270 | Any recording cut between the tag and the size of a chunk, over four zeros: an empty frame is added to the copy and the promise is lost |
| AviGarbage.ZeroedCardBreaksPromise | src/avi.c:233-270 | The same with numbers: a four-byte JPEG on a zeroed card, cut after 228 bytes |
| AviCrash.EmptyRecording | src/avi.c:166-230 | A recording cut right behind its header is ingested as an empty closed clip |
| AviCrash.Recovery | desktop/src/shared/avi/ingest.ts:126-221 | Any file that starts with a recording's header and completed chunks is ingested as those chunks and the ones readable behind them |
| AviCrash.KeptFrames | desktop/src/shared/avi/ingest.ts:135-196 | The scan and the torn-frame drop keep just the chunks of the completed frames and of what can be read behind them, byte for byte |
| AviCrash.AnyCut | src/avi.c:71-335 | At every byte of a recording the file is a header that differs in its patched fields only and is never ahead, the completed chunks, a prefix of what is in flight, and old bytes |
| AviCrash.NeverAhead | src/avi.c:303-326 | At every byte: counts and sizes in the header never exceed the complete chunks in the file, and HASINDEX is set only with the whole staged index in place, which names every chunk exactly when the index buffer had room for all |
| AviCrash.RefreshIsExact | src/avi.c:295-301 | A completed refresh leaves a self-consistent movie: every count equals the chunks in the file, every size ends at the last of them, no index is promised |
| AviCrash.ClosingIsFinal | src/avi.c:303-335 | Closing leaves the patched header, every chunk and an index of them all, which is the file the recovery results compare with |
| AviCrash.ChunksAligned | src/avi.c:239-251 | Every chunk starts on a multiple of four |
| AviCut.RunningCut | src/avi.c:166-301 | Any cut of a recording that is still running, its header included, is a part of the first header over old bytes, or a header with the completed chunks, what is in flight and old bytes |
| AviCut.PatchTorn | src/avi.c:87-98 | A 32-bit header field patched by a write that stops half way never exceeds what the old and the new value allow |
| AviRecorder.Avi.Start | src/avi.c:136-231 | Writes the header of an empty movie without an index, refuses exactly a zero rate or scale on a card that fails no call, and on a failed write leaves a part of the header and the error |
| AviRecorder.Avi.Wr | src/avi.c:71-83 | A write at the running end either goes out whole and advances the end, or leaves a part of itself and a sticky error |
| AviRecorder.Avi.Patch32 | src/avi.c:87-98 | A field patch goes out at its offset or leaves a part of its four bytes and the sticky error |
| AviRecorder.Avi.PatchRunning | src/avi.c:101-116 | The four running fields go out in order and the position returns to the running end, or a prefix of that went out |
| AviRecorder.Avi.IdxStage | src/avi.c:122-134 | The index buffer gains the entry of the chunk about to be written, up to its capacity |
| AviRecorder.Avi.ChunkDone | src/avi.c:245-251 | The counters agree with the chunks written as long as the file stays below 4 GB |
| AviRecorder.Avi.AddFrame | src/avi.c:253-272 | Sends just the chunk of that frame with zero pad, or a prefix of it; after an error nothing is sent any more; on a card that fails no call it succeeds |
| AviRecorder.Avi.AddEmptyFrame | src/avi.c:274-279 | A dropout is a zero-size chunk that is counted and indexed like any other |
| AviRecorder.Avi.AddRaw | src/avi.c:281-293 | One write of a prepared chunk has the same effect as the three writes of a frame |
| AviRecorder.Avi.RefreshHeader | src/avi.c:295-301 | Patches counts and sizes to what a file ending at the last chunk needs, with no index promised; on a card that fails no call it succeeds |
| AviRecorder.Avi.WriteIndex | src/avi.c:311-319 | Sends the index of the staged frames, or a prefix of it |
| AviRecorder.Avi.Finalize | src/avi.c:303-335 | Sends index, flag and running fields in that order; whatever fails, only a prefix of them has gone out; on a card that fails no call it succeeds |
| AviWriter.HeaderFields | src/avi.c:166-223 | Every patched field of the header has its value at its fixed offset |
| AviWriter.MainHeaderAt | src/avi.c:168-188 | Every word of the main header by its offset: list sizes, the frame time in microseconds at 32, the byte rate at 36, one stream, width at 64 and height at 68 |
| AviWriter.StreamHeaderAt | src/avi.c:190-208 | Every word of the stream header by its offset: scale at 128 and rate at 132, quality -1, the rectangle of width and height |
| AviWriter.FormatAt | src/avi.c:210-223 | Every word of the format by its offset: width at 176, height at 180, one plane of 24 bits, the nominal picture size, and the movi list at 212 |
| AviWriter.CompressionAt | src/avi.c:217-217 | The compression code at 188 is MJPG |
| AviWriter.TagsSpelt | src/avi.c:169-223 | The four-character codes as they are spelt |
| AviTrace.RunningOrder | src/avi.c:101-116 | A refresh sends riff size, frame count, stream length and movi size to 4, 48, 140 and 216 in this order, lowest byte first |
| AviTrace.ClosingOrder | src/avi.c:303-335 | Closing sends the index behind the last chunk, then the flags 0x110 to 44, then the running fields with the index counted in the riff size |
| Bytes.LittleEndian | src/avi.c:48-56 | A 32-bit field is stored lowest byte first |
| AviWriter.HeadersAgree | src/avi.c:100-116 | Headers of one recording differ in the patched fields only |
| AviIngest.IngestClip | desktop/src/shared/avi/ingest.ts:85-260 | The one-pass streaming copy equals a definition over the whole file, of which AviIngest.IngestReports, IngestWrites, KeptAre, ScanFinds and ScanStops say what each part of the result is |
| AviIngest.IngestReports | desktop/src/shared/avi/ingest.ts:198-258 | A clip is called cut if and only if its scan was cut or it has 209715200 bytes; frames and drops count the kept chunks and those of size 0; a torn frame is reported exactly when a chunk was dropped; and when each of the three errors is returned |
| AviIngest.IngestWrites | desktop/src/shared/avi/ingest.ts:198-221 | The copy is the source's header with the five fields set to the kept chunks, the source's bytes up to the last of them, and an index of that many entries |
| AviIngest.KeptAre | desktop/src/shared/avi/ingest.ts:184-196 | Kept are all chunks found, or all but the last when the scan was cut and that chunk has two bytes or more and no FF D9 at its end |
| AviIngest.ScanFinds | desktop/src/shared/avi/ingest.ts:137-167 | Every chunk found has the tag 00dc, a size within the limit and all its bytes, and begins at 224 or where the one before it ends with its pad |
| AviIngest.ScanStops | desktop/src/shared/avi/ingest.ts:137-176 | The scan ends where no such chunk stands, and is called cut there unless the file ends exactly or idx1, LIST or JUNK follows |
| AviGarbage.CutIsReported | desktop/src/shared/avi/ingest.ts:240-244 | A recording cut behind its header is ingested; a file of the length the camera reserves is always reported cut, and so is every clip that lost a torn frame; over quiet old contents any other is reported cut exactly until the tag of its index is written |
| AviIngest.ScanSource | desktop/src/shared/avi/ingest.ts:120-177 | However the reads are split, the scan finds the chunks, end and truncated flag of a scan of the whole file, with the carried tail always shorter than one largest chunk, and it ends |
| AviIngest.NextBlock | desktop/src/shared/avi/ingest.ts:126-176 | One block advances the scan by exactly the whole chunks it completes |
| AviIngest.ScanBlock | desktop/src/shared/avi/ingest.ts:135-161 | Within a block the chunks found are those at these places of the file, and it says whether to stop, cut or read on |
| AviIngest.DropTorn | desktop/src/shared/avi/ingest.ts:184-196 | A cut clip loses its last chunk exactly when that holds two bytes and does not end with an EOI |
| AviOut.OutFile.Close | desktop/src/shared/avi/ingest.ts:198-221 | Header, body and chunk list become a closed clip with the index behind the body and the five fields patched |
| AviOut.OutFile.Patch | desktop/src/shared/avi/repair.ts:93-111 | The five header fields take their new values and no other byte changes |
| AviOut.BuildIdx1 | desktop/src/shared/avi/repair.ts:77-90 | The index buffer holds one entry per chunk, offsets counted from the movi fourcc, and fails exactly when a field does not fit 32 bits |
| AviRepair.WalkMovi | desktop/src/shared/avi/parse.ts:126-191 | The walker finds every complete chunk, keeps a last one whose pad is cut off, and stops uncut only at the end or at a chunk that may follow |
| AviRepair.LastFrameIsTorn | desktop/src/shared/avi/repair.ts:47-55 | A last chunk of four bytes or more without an EOI is torn |
| AviRepair.CopyRange | desktop/src/shared/avi/repair.ts:114-134 | Appends exactly the bytes from one offset to another, however the reads are split |
| AviRepair.RepairTo | desktop/src/shared/avi/repair.ts:143-184 | Walk, drop and close give the file the two-pass definition describes, of which AviRepair.RepairMeans says what it keeps, and an error when nothing is recoverable |
| AviRepair.WalkMeans | desktop/src/shared/avi/parse.ts:126-191 | The walk is the scan without a size limit, and takes one chunk more exactly when only the pad of a last chunk is missing |
| AviRepair.RepairMeans | desktop/src/shared/avi/repair.ts:143-184 | Kept are the chunks of the walk, but for a last one of four bytes or more of a cut clip that has no FF D9 at its end, nothing is recoverable exactly when the walk found none, and the rest is the source's header with the five fields set, its bytes and an index |
| AviRepair.IngestRefinesRepair | desktop/src/shared/avi/ingest.ts:126-221 | The fused pass writes what walk-then-repair writes if and only if the two keep the same chunks, a condition on chunk sizes, the last pad and the last EOI |
| AviExamples.ShortTornFrameSplitsThem | desktop/src/shared/avi/ingest.ts:184-196 | A clip that ends in a torn frame of two bytes: ingest drops it, repair keeps it, and the files differ |
| AviRepair.ScanAgainstWalk | desktop/src/shared/avi/parse.ts:137-183 | The ingest scan finds the walk's chunks up to the first that is too large or lacks its pad |
| AviFrames.TableFromIndex | desktop/src/shared/avi/frames.ts:33-73 | The seek table from the index, or none in each of the cases the reader rejects |
| AviFrames.IndexTableMeans | desktop/src/shared/avi/frames.ts:33-73 | An index is used exactly when idx1 stands where the movi size says, with at least one entry and entries of 00dc only; entry i then gives offset and size of frame i |
| AviFrames.TableByWalk | desktop/src/shared/avi/frames.ts:76-117 | The block-wise walk gives the frames of a scan of the whole file, however reads are split |
| AviFrames.WalkTableMeans | desktop/src/shared/avi/frames.ts:76-127 | Without a usable index the frames are those of a scan with no size limit; a file that does not begin with RIFF has no table |
| AviFrames.ReadFrameMeans | desktop/src/shared/avi/frames.ts:134-149 | Reading a frame gives its bytes as far as the file goes, and nothing past the end of the table |
| AviFrames.SoundTables | desktop/src/shared/avi/frames.ts:119-127 | On a closed clip below 4 GB the index-built table equals the chunk-walk table |
| AviFrames.IngestSound | desktop/src/shared/avi/ingest.ts:198-221 | What an ingest writes is a closed clip whose walk ends uncut at its index |
| AviFrames.IngestedFrames | desktop/src/shared/avi/frames.ts:134-149 | Reading frame i of an ingested clip returns exactly the payload of the i-th chunk kept, and nothing for a dropout or past the end |
| AviFrames.IngestIdempotent | desktop/src/shared/avi/ingest.ts:85-260 | Ingesting an ingested clip changes no byte and drops nothing |
| AviCheck.CheckIdx1 | desktop/src/shared/avi/parse.ts:214-264 | Silent exactly when the index is complete and names every chunk; without errors exactly when it is short at worst and right from one of the two bases |
| AviCheck.SoundIsExact | desktop/src/shared/avi/parse.ts:214-264 | A closed clip has an exact index behind a walk that is not cut |
| AviCheck.IngestedIsExact | desktop/src/shared/avi/parse.ts:345-360 | What an ingest writes passes the index check |
| AviJoin.ConcatTo | desktop/src/shared/avi/repair.ts:212-280 | The writer equals the definition of the join: one header, every body in order, one index of all chunks rebased, with each refusal |
| AviJoin.JoinRefuses | desktop/src/shared/avi/repair.ts:212-238 | Each refusal and its exact condition: no segment, one that differs from the first at 176, 180, 128 or 132, or 2^32 bytes and more |
| AviJoin.JoinWrites | desktop/src/shared/avi/repair.ts:240-280 | The join is the first segment's header with the five fields set to the joined chunks, the bodies in order and an index of that many entries |
| AviJoin.RecordedFacts | src/avi.c:200-214 | The fields the join compares are the width, height, rate and scale a recording was started with |
| AviJoin.Project | desktop/src/shared/avi/repair.ts:231-233 | The sizes summed before writing are those of the joined body and chunk list |
| AviJoin.CheckFacts | desktop/src/shared/avi/repair.ts:224-229 | Segments are joined only when geometry and timebase all equal the first one's |
| AviJoin.CopyBodies | desktop/src/shared/avi/repair.ts:249-268 | The loop writes every body in order and rebases its chunks to where they landed |
| AviJoin.GuardFits | desktop/src/shared/avi/repair.ts:231-238 | Once the size guard has passed, no 32-bit field of the join is truncated |
| AviJoin.ChunksAppend | desktop/src/shared/avi/repair.ts:253-268 | Chunks of a longer list are those of its parts, the later ones moved behind the earlier bodies |
| AviJoinLaws.JoinWalk | desktop/src/shared/avi/repair.ts:212-280 | Walking a join finds every segment's chunks, or all up to the first segment that lost pad bytes |
| AviJoinLaws.JoinIsHomomorphism | desktop/src/shared/avi/repair.ts:253-268 | The joined file's payloads are the segments' payloads one after another if and only if no chunk follows a segment that lost pad bytes |
| AviJoinLaws.JoinIndexNames | desktop/src/shared/avi/repair.ts:257-272 | Every entry of the rebased index names the chunk the walk finds under that number |
| AviJoinLaws.JoinIsAssociative | desktop/src/shared/avi/repair.ts:212-280 | Joining a group first changes no byte, wherever the group stands, if and only if no segment of it lost pad bytes |
| AviExamples.RaggedSegmentLosesFrames | desktop/src/shared/avi/repair.ts:253-268 | A one-byte frame without its pad joined with a dropout: the join goes through and does not play the frames of the two, and joining it again changes it |
| AviLibrary.IngestedClipsJoin | desktop/src/shared/avi/repair.ts:212-280 | A join of ingested clips always plays every frame of every clip, in order |
| AviLibrary.IngestedClipsGroup | desktop/src/shared/avi/repair.ts:212-280 | However ingested clips are grouped before joining, the bytes are the same |
| AviLibrary.JoinOfOne | desktop/src/shared/avi/repair.ts:212-280 | Joining a single ingested clip gives that clip back |
| AviLibrary.IngestedIsNotRagged | desktop/src/shared/avi/ingest.ts:157-167 | No ingested clip has lost pad bytes, which is what the join needs |
| DlogRing.Ring.Put | src/dlog_core.c:28-38 | A line is kept whole behind the waiting bytes or dropped whole and counted, across any wrap of the 32-bit indices |
| DlogRing.Ring.Recover | src/dlog_core.c:16-22 | A ring left behind by a reset is kept as it was; memory that cannot be one becomes an empty ring |
| DlogRing.Ring.Pending | src/dlog_core.c:24-26 | The index difference is the number of waiting bytes, wrapped or not |
| DlogRing.Ring.Consume | src/dlog_core.c:150-150 | Advancing the tail lets go of the oldest bytes and no others |
| DlogCore.Dlog.Activate | src/dlog.c:262-266 | The log may write from then on, unless it is not ready or was abandoned |
| DlogCore.Dlog.Log | src/dlog_core.c:28-38 | An accepted line joins the story once, a refused one leaves no trace |
| DlogCore.Dlog.PutSector | src/dlog_core.c:144-154 | Bytes are forgotten by the ring only when the sector holding them was written, and lines logged during the write are not |
| DlogCore.Dlog.TakeText | src/dlog_core.c:161-181 | As many waiting bytes as fit move into the current sector, in order, with interrupts between the bytes |
| DlogCore.Dlog.StopFull | src/dlog_core.c:164-173 | In the reserved last sector only the closing message is ever written |
| DlogCore.Dlog.Flush | src/dlog_core.c:156-197 | Full sectors go out, a part-filled one when forced, and the rest waits in the current sector. However writes fail and whatever interrupts log at any step, card text followed by what is owed and by the ring stays equal to the text at open and every accepted line, once each; card text only grows; a forced flush brings all that was accepted before it to the card; a full, abandoned or inactive log writes nothing; nothing outside the file changes |
| DlogView.PutKeeps | src/dlog_core.c:144-154 | What reaches the card is the committed text, the owed line ending and the text taken, and conservation survives |
| DlogView.SaidKeeps | src/dlog_core.c:28-38 | Lines accepted at any moment of a flush join the story and disturb neither the current sector nor the committed text |
| DlogView.PutFullKeeps | src/dlog_core.c:182-189 | A full sector on the card starts an empty next one and keeps the text free of whole sectors of padding |
| DlogView.CardOfKnit | src/dlog_core.c:78-107 | A log fed with lines of at most 200 bytes leaves padding sectors as a suffix only, and the extent read back is the committed text |
| DlogView.CardOfTold | src/dlog_core.c:123-131 | A log that says it is full reads as used up to its last sector |
| DlogCore.Dlog.Wipe | src/dlog_core.c:66-76 | Clears just the sectors asked for, or reports failure |
| DlogCore.Dlog.Bisect | src/dlog_core.c:81-89 | When padding is a suffix, bisection finds exactly its first sector |
| DlogCore.Dlog.Locate | src/dlog_core.c:80-107 | Lands exactly at the end of the text with trailing spaces left off, and tells whether its last line was cut |
| DlogCore.Dlog.FindStart | src/dlog_core.c:119-133 | Goes on behind the text when at least nsec / 4 sectors are left behind its last full one, and clears the file otherwise or when it is new; on a card that answers every call it succeeds |
| DlogCore.Dlog.EndLine | src/dlog_core.c:135-139 | A cut line gets CR LF, or LF alone when only one byte of the sector is left |
| DlogCore.Dlog.Open | src/dlog_core.c:109-142 | The log goes on behind the text when the file is not new and nsec - text / 512 >= nsec / 4, and is empty otherwise; nothing is overwritten in the first case, a line cut at the end gets CR LF or, in the last byte of a sector, LF, at least two sectors are left, nothing outside the file changes, and on a card that answers every call it succeeds |
| DlogCore.Dlog.HostWrote | src/dlog_core.c:199-205 | A host write ends logging for good if and only if it shares a sector with the file, addresses below 2^32 |
| DlogCore.FirstSession | src/dlog_core.c:28-197 | On a new file and a card that answers every call, what the ring held and a line logged then are on the card after a forced flush that was not cut short, whatever is logged meanwhile |
| DlogCore.Restart | src/dlog_core.c:80-142 | Across a reset or power cut the next session goes on behind exactly the committed text, trailing spaces aside, when at least a quarter of the sectors is left behind it, and clears the file otherwise; the surviving ring follows |
| DlogText.TrimExtent | src/dlog_core.c:94-105 | The text of an extent ends in its last sector that is not padding |
| Runcam.CrcByte | src/runcam.c:36-43 | The shift loop is eight rounds of the CRC step |
| Runcam.OneByteDetected | src/runcam.c:36-43 | Every change confined to one byte changes the CRC of a message of any length |
| Runcam.CrcOfClosed | src/runcam.c:136-140 | The CRC of a message followed by a byte is 0 if and only if that byte is the message's CRC |
| Runcam.FramesAreSound | src/runcam.c:126-147 | Every frame reported is a contiguous CRC-valid run, in order and without overlap |
| Runcam.FramesAreComplete | src/runcam.c:126-147 | Every CRC-valid run is reported unless it begins inside one reported before it |
| Runcam.FramesAreUnique | src/runcam.c:126-147 | Sound and complete leaves one answer only, so the parser's answer is it |
| Runcam.RestIsPartial | src/runcam.c:126-135 | What stays buffered is nothing or the beginning of a frame, three bytes at most |
| Runcam.MatchGoesOn | src/runcam.c:159-173 | Parsing a longer stream goes on from where the shorter one stopped, with the same frames and counts so far |
| Runcam.ReportedAtItsEnd | src/runcam.c:159-173 | Every frame of a stream is reported with its last byte and not before |
| Runcam.DamagedFrameIsQuiet | src/runcam.c:92-120 | A valid frame with one byte changed contains no toggle, start or stop |
| Runcam.Rcam.Feed | src/runcam.c:159-173 | A byte that ends a frame counts it once and reports toggle, start or stop exactly for the command byte 1 with action 1, 3 or 4; a device-info request is answered with CC 01 C5 00 BA when there is a way back; every other byte reports nothing; resyncs and CRC errors advance with 32-bit wrap |
| Runcam.KnownRuns | src/runcam.h:16-19 | The three packets of a flight controller fed byte by byte to a new parser are one toggle, one start and one stop, and a device-info request gets its answer |
| Runcam.Rcam.Receive | src/runcam.c:159-173 | After any stream the buffer is its unmatched suffix, and what a byte adds is the frame that ends with it |
| Runcam.CountersMean | src/runcam.c:126-147 | A resync is counted for each header byte that no reported frame covers, a CRC error for those of them with a known command |
| Runcam.WhatIsAFrame | src/runcam.c:45-58 | A frame is CC, a command of 0 to 4, an argument unless the command is 0 or 3, and the CRC of these |
| Runcam.KnownFrames | src/runcam.c:36-43 | The CRC of five known messages, which tell the polynomial from others |
| Runcam.Rcam.Scan | src/runcam.c:124-149 | The loop over the buffer does what the matcher does on the stream from there |
| Runcam.Rcam.Turn | src/runcam.c:126-147 | One turn drops a byte, waits, or dispatches the frame at the front |
| Runcam.Rcam.Resync | src/runcam.c:61-71 | Drops the first byte and the noise up to the next header, in place |
| Runcam.Rcam.Dispatch | src/runcam.c:92-120 | Only a device-info request is answered, when there is a way back, and only command 1 with action 1, 3 or 4 is toggle, start or stop |
| Runcam.Rcam.SendDeviceInfo | src/runcam.c:76-89 | The reply is CC 01 C5 00 BA |
| Runcam.Rcam.Idle | src/runcam.c:175-183 | A quiet line abandons a partial frame and counts it |
| SpiNor.WithinPage | src/spinor.c:153-163 | A program within its page clears bits of consecutive cells only |
| SpiNor.ProgramStaysInPage | src/spinor.c:153-163 | A page program never leaves its page, whatever its length |
| SpiNor.Nor.Erase4k | src/spinor.c:146-151 | On a working chip the sector becomes 0xFF; on any chip no other sector changes |
| SpiNor.Nor.Write | src/spinor.c:153-166 | Split at page borders, the programs clear the bits of the whole run and touch no page outside it |
| SpiNor.Nor.Read | src/spinor.c:136-144 | Reads of any length return the memory's bytes |
| SpiNor.Nor.Burn | src/usbdfu.c:155-171 | On a working chip burning succeeds from any contents; whenever it reports success the slot equals the image; nothing outside the image's sectors changes |
| SpiNor.Nor.ReadBack | src/usbdfu.c:164-170 | The read-back passes if and only if the slot equals the image |
| Dfu.UsbDfu.ClassHandler | src/usbdfu.c:64-138 | Every request does to state, status, counters and staging memory what the protocol table says |
| Dfu.BlockRules | src/usbdfu.c:68-77 | When a block is refused, with which status, and what an accepted one appends |
| Dfu.EndRules | src/usbdfu.c:78-84 | The end of an image is taken after a block that was asked about, and is errNOTDONE otherwise |
| Dfu.StatusRules | src/usbdfu.c:86-109 | GETSTATUS state by state: a valid image of 4096 to 262144 bytes with EA as its fourth is accepted with a poll time of 500 ms, any other is errFIRMWARE |
| Dfu.OtherRules | src/usbdfu.c:110-145 | What GETSTATE, CLRSTATUS, ABORT, UPLOAD, DETACH and a bus reset do |
| Dfu.UsbDfu.DnloadBlock | src/usbdfu.c:68-77 | A block is staged behind the ones before it only in order, in the right state and within the slot |
| Dfu.UsbDfu.StatusReport | src/usbdfu.c:86-109 | GETSTATUS makes the transitions DFU 1.1 ties to it and reports the state after them |
| Dfu.UsbDfu.NotifyReset | src/usbdfu.c:140-145 | A bus reset starts over unless an image waits for its burn |
| Dfu.UsbDfu.Poll | src/usbdfu.c:173-189 | A ready image is burnt once per power-up, and never without one; a reboot means the slot equals it, it is a valid image or no bytes at all, and then the flash is untouched; a working chip gets that far |
| Dfu.EmptyBurn | src/usbdfu.c:64-189 | A run: a late block and an abort leave a board ready with nothing staged, which reboots without writing |
| Dfu.EveryRunIsSane | src/usbdfu.c:64-145 | Whatever any host sends, with resets anywhere, a board in manifestation has a valid image staged and accepted, and a ready board has a valid image or nothing staged |
| Dfu.ReadyIsKept | src/usbdfu.c:86-145 | No reset and no request but a download takes an accepted image away or changes it |
| DfuHost.ValidateImage | desktop/src/main/update/dfu.ts:154-161 | The host rejects exactly the images the board would reject |
| DfuHost.ToIdle | desktop/src/main/update/dfu.ts:214-227 | Undisturbed, the board is brought to idle exactly when it says why it failed or rests with status OK |
| DfuHost.AbortHidesAnError | src/usbdfu.c:124-129 | A refused block and an abort leave an idle board on which no update can start |
| DfuHost.WhatGivesItBack | src/usbdfu.c:64-145 | Such a board can start again after exactly two events: a reset while no image is accepted, or a first block that is refused |
| DfuHost.SendBlock | desktop/src/main/update/dfu.ts:233-253 | After a block the board has staged all sent so far, or a reset has made it refuse what follows |
| DfuHost.AwaitManifest | desktop/src/main/update/dfu.ts:279-296 | Success is reported only at MANIFEST-WAIT-RESET with exactly the image staged and accepted; the board counts as vanished only when a transfer was lost with the image staged or after a reset |
| DfuHost.Download | desktop/src/main/update/dfu.ts:171-296 | From any board state, with resets and lost transfers anywhere: a finished download has exactly the image staged and accepted; undisturbed it finishes if and only if the board can be brought to idle; a board that vanishes had lost a transfer after the end of the image was sent |
| DfuHost.Update | src/usbdfu.c:173-189 | A finished download followed by the main loop's burn leaves the slot equal to the file and the rest of the flash alone |
| Pipeline.Ring.Tick | src/pipeline.c:85-195 | A tick publishes at most the frame whose encode ended, at the height it was encoded at, and starts, drops or keeps the next one: the captured picture or the one that waited, in the height of the USB stream when that is on and of the input otherwise, the lines it drops shared out above and below; a frame is lost exactly when it is still unread 16 frames later and the counter has wrapped in between; every 20th tick the standard is followed |
| Pipeline.Ring.Settle | src/pipeline.c:104-136 | A frame is published with its length and height in place; a failed or late encode publishes nothing |
| Pipeline.Ring.StartOrDrop | src/pipeline.c:141-189 | With 40 frames outstanding the frame is dropped unencoded, otherwise the picture is encoded at the USB height or the input height into the slot at the head, which costs an unread frame just if the two clash |
| Pipeline.Ring.EngineSlotIsFree | src/pipeline.c:45-47 | The slot being encoded is that of an unread frame if and only if fewer than 16 frames were made since the counter wrapped and 16 or more wait |
| Pipeline.Ring.ConsumeOne | src/pipeline.c:231-238 | With interrupts between all its steps, a consumer is given the oldest frame not yet consumed, with its length and as-encoded height, unless it was lost at a wrap |
| Pipeline.Ring.ConsumedInOrder | src/pipeline.c:231-238 | The frames consumed are the frames published, in order, but for the last 16 before each wrap of the 32-bit counter, which may be lost |
| Pipeline.Ring.Consume | src/pipeline.c:231-238 | The main loop consumes until nothing is unread, whatever the interrupts publish meanwhile |
| Pipeline.Ring.Freeze | src/pipeline.c:240-247 | Freezing lets at most the encode in flight be published and starts no other; the wait is over if and only if nothing was in flight, or the ring is on and an interrupt finds the encode done, failed or timed out |
| Pipeline.FreezeWaitsForEver | src/pipeline.c:56-65 | A run: a ring switched off with an encode in flight is frozen, and whatever the interrupts find the wait goes on |
| Pipeline.WrapLosesAFrame | src/pipeline.c:231-238 | A run from the start to the wrap in which the consumer is going to find the frame of number 2^32 in place of the one 16 before it |
| Pipeline.Ring.Interrupts | src/pipeline.c:85-195 | However many interrupts come, what was published stays published, and a frozen ring with an idle engine keeps every slot |
| Pipeline.SlotOfBase | src/pipeline.c:198-200 | The height looked up by address is that of the slot |
| Pipeline.SlotsCoincide | src/pipeline.c:45-47 | Two frames less than a ring apart have the same slot if and only if they are 16 apart and the 32-bit counter wraps between them |
| Pipeline.ClashIff | src/pipeline.c:138-141 | With these counters the next slot is that of an unread frame exactly when head is below 16 and the depth is 16 or more |
| Capture.Ring.Tick | src/capture.c:279-298 | A rotation hands out the buffer completed a cycle before, which the decoder has left; between rotations nothing is handed out |
| Capture.Ring.SafeIsLeftAlone | src/capture.c:181-197 | The decoder is in the buffer handed out if and only if the address armed since the rotation was latched; until then it has not written there |
| Capture.SafeIsOverwritten | src/capture.c:279-298 | A run with no frame missed in which the buffer handed out is written before the next one is handed out |
| Capture.Ring.Watchdog | src/capture.c:257-277 | Exactly 200 locked ticks without a frame restart the ring, and every third restart in a row programs the decoder for the standard again, which a plain restart does not |
| Capture.Ring.Locked | src/capture.c:257-298 | Any K locked ticks in a row contain at least K div 200 rotations or restarts, and a decoder upset from outside is programmed right after 600 of them without a frame |
| Capture.Ring.Arm | src/capture.c:281-285 | The next address is handed over early and only once per frame |
| Capture.Ring.Advance | src/capture.c:286-291 | Rotation keeps the decoder inside the two buffers that are not handed out |
| Capture.Ring.Restart | src/capture.c:98-107 | A restart leaves no buffer handed out and intact sentinels in the one being filled |
| Capture.Ring.SetStandard | src/capture.c:127-154 | Programs the decoder for the standard and restarts the ring, although the decoder runs before the sentinels are stamped |
| DcfNames.PutDec | src/dcf.c:39-45 | Prints exactly the last digits of a number, most significant first |
| DcfNames.ParseDirName | src/dcf.c:65-77 | Accepts exactly three digits from 100 up followed by the tag, on C strings of any length |
| DcfNames.ParseClipName | src/dcf.c:80-96 | Accepts exactly the prefix, four digits and the extension |
| DcfNames.SessionRoundTrip | src/dcf.c:48-77 | A name parses to a number if and only if it is the name printed for it, 100 to 999 |
| DcfNames.ClipRoundTrip | src/dcf.c:80-96 | A name parses to an index if and only if it is the name printed for it, 0 to 9999 |
| DcfNames.NamesSpelt | src/dcf.c:48-62 | The names letter by letter: three digits and FCDVR, FCDV and four digits and .AVI |
| DcfNames.PrintersAgree | desktop/src/shared/dcf.ts:55-61 | Desktop and firmware print the same names |
| DcfNames.ParsersAgree | desktop/src/shared/dcf.ts:34-53 | Desktop and firmware parse every name alike but for the clip of index 0000 |
| DcfCard.Dcf.MarkSessions | src/dcf.c:106-117 | The bitmap marks just the session directories on the card, and the plan follows the highest |
| DcfCard.Dcf.HighestClip | src/dcf.c:119-129 | The highest index of a directory is found among files only |
| DcfCard.Dcf.BootScan | src/dcf.c:131-159 | The plan is one past the highest directory and one past the highest index anywhere on the card, or full past 999 |
| DcfCard.Dcf.NextClip | src/dcf.c:163-193 | Gives the path of the planned clip and moves on by one, making the directory with the first; refuses exactly when directory or index is exhausted; an error changes nothing |
| DcfCard.NewNameIsFresh | src/dcf.c:163-193 | The name given next is above and different from every clip name on the card |
| DcfCard.HistoryKeeps | src/dcf.c:131-193 | Over any history of boots, clips, deletions and swaps to cards the plan is ahead of, session directories deleted under way included, clips on the card have distinct indices, and index order and session order are creation order |
| DcfCard.BootKeeps | src/dcf.c:131-159 | A power-up puts the plan ahead of whatever card is in the slot |
| DcfCard.WhenAClipIsLost | src/recorder.c:130-130 | Making the planned clip on any card loses a clip if and only if the planned path is one already |
| DcfCard.WhenOrderIsKept | src/dcf.h:10-18 | Making the planned clip on any card keeps the clips in order if and only if the plan is ahead of all the others |
| DcfCamera.Camera.ClipStart | src/recorder.c:124-130 | On a sound card a clip is made if and only if directory and index are not used up, its directory is there or still to be made, and no other entry has its names; it is then above all clips of the card if the plan is fresh or every card put in fitted it; a clip is lost exactly when it had the planned path |
| DcfCamera.Camera.MakeNext | src/recorder.c:129-130 | The same once names are planned, for any card in the slot; whatever happens is one more step of the history |
| DcfCamera.Camera.Plan | src/recorder.c:125-128 | Names are planned once per power-up, from the card, and again only while that fails; on a sound card it fails only when no directory is left |
| DcfCamera.Camera.ClipsInOrder | src/dcf.h:10-18 | Whatever power-ups, clips, host edits and fitting swaps led to this card, its clips have distinct indices in the order they were made and the plan is ahead of them |
| DcfCamera.Camera.HostEdits | src/dcf.h:15-16 | Deletions by a host are a step of the history, and do not free a camera whose session directory is gone |
| DcfCamera.BecomesStuck | src/recorder.c:124-130 | A run: a host empties the card during the session, and on a sound card no clip can be made |
| DcfCamera.SwapLosesAClip | src/recorder.c:124-130 | A run: a card put in during the session loses its clip of the planned path |
| DcfCamera.DeletedIndexComesBack | src/dcf.h:11-12 | A history in which a clip is made, a host deletes it, and after a power-up its index is planned again |
| DcfCard.RecordKeeps | src/dcf.c:163-193 | Making a clip keeps the clips apart and the plan ahead of them |
| DcfCard.WhenAnIndexIsReused | src/dcf.c:150-150 | An index is given again after a boot if and only if neither it nor a higher one is left on the card |

## Left out

- AviCrash.CrashRecovery: files of 4 GB and more, which the card's file system does not have.
- AviCrash.PromiseKept: same limits; the file system's own structures are taken to be on the card before recording starts, and writes to reach the card in order.
- AviRecorder.Avi.AddFrame: a file of 4 GB or more, where the 32-bit counters wrap; the counters are modelled with their wrap, the promises are stated below it.
- AviIngest.IngestClip: digest, progress reports, duration and the geometry fields of the result; I/O errors; the header is one whole read.
- AviRepair.WalkMovi: the wording and the warnings of the walk, and the end claimed by the header, which only adds a warning.
- AviRepair.RepairTo: the search for the movi list from the top of the file; the walk starts at the fixed offset 224; the counts in its result.
- AviJoin.ConcatTo: geometry and timebase are read at their fixed offsets instead of through the header parser.
- AviFrames.TableFromIndex: the geometry fields of a table.
- DlogCore.Dlog.Wipe: power cuts while the file is being cleared; the code gives no invariant there.
- DlogCore.Dlog.Flush: a host write into the file in the middle of a flush; it arrives between calls.
- DlogCore.Dlog.Open: says where the text is when padding sectors form a suffix of the file, which logging keeps true; a host may break that by editing the file.
- DlogCore.Dlog.HostWrote: an end address past 2^32 is compared as the code compares it, but the exact condition is stated below it.
- DlogCore.Restart: a failed single-sector write leaves that sector as it was.
- Runcam.Rcam.Feed: the timer that decides when the line is idle.
- Dfu.UsbDfu.Poll: requests that arrive while the flash is being burnt, of which `Dfu.ReadyIsKept` says which leave the image alone, and the reboot itself.
- DfuHost.Download: finding and claiming the USB interface; the 30 s deadline of the last polls, which is a number of polls given beforehand.
- SpiNor.Nor.Burn: SPI transfers and timing; a chip that does not work may spoil the sector or page it was told to change, and reads are true.
- Pipeline.Ring.Tick: bench mode beyond skipping a frame, and what following the input standard does; that it is called is modelled.
- Pipeline.Ring.Consume: a run of the loop is followed for any number of frames given beforehand, since interrupts may keep it going for ever.
- Pipeline.Ring.Freeze: the wait is followed through any interrupts given beforehand.
- Capture.Ring.Tick: a picture row that happens to look like a sentinel; a change of standard arrives between ticks.
- DcfCard.Dcf.BootScan: the bitmap is an array of flags instead of packed words; names are listed in any order.
- DcfCard.HistoryKeeps: clips and session directories copied onto the card by a host.
- DcfCamera.Camera.ClipStart: reserving space for the file, and the writer that is started on it.
- Formatting of log lines, and the debug build's episode messages.
- JPEG tables, the capture of pixels and chroma, the USB video and mass-storage classes, FatFs and the hardware layers.
- The player, the job queue, release downloads and recovery over FEL.
