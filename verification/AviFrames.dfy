/** Seek tables, read from the index or rebuilt by walking, and the bytes of one frame. */
module AviFrames {
  import opened Wrappers
  import opened Bytes
  import opened AviFormat
  import opened AviOut
  import opened AviIngest

  datatype Frame = Frame(offset: nat, size: nat)

  function FramesOf(cs: seq<Chunk>): (r: seq<Frame>)
    ensures |r| == |cs|
  {
    seq(|cs|, i requires 0 <= i < |cs| => Frame(cs[i].off + 8, cs[i].size))
  }

  /** Entries the index at `idxOff` holds, as far as the file goes. */
  function EntryCount(f: seq<byte>, idxOff: nat): (n: nat)
    requires idxOff + 8 <= |f|
    ensures idxOff + 8 + 16 * n <= |f|
  {
    var stored, room := Get32(f, idxOff + 4), |f| - idxOff - 8;
    (if stored < room then stored else room) / 16
  }

  /** Where the header says the index is, if one is there and holds an entry. */
  function IndexOffset(f: seq<byte>): (r: Option<nat>)
    ensures r.Some? ==> r.value + 8 <= |f|
  {
    if |f| < HDR_SIZE || !Tag(f, 0, RIFF) then None
    else
      var idxOff := MOVI_FCC + Get32(f, OFF_MOVISZ);
      if idxOff + 8 > |f| || !Tag(f, idxOff, IDX1) || EntryCount(f, idxOff) == 0 then None else Some(idxOff)
  }

  function EntryFrame(f: seq<byte>, e: nat): Frame
    requires e + 16 <= |f|
  {
    Frame(MOVI_FCC + Get32(f, e + 8) + 8, Get32(f, e + 12))
  }

  function IndexTable(f: seq<byte>): Option<seq<Frame>> {
    var at := IndexOffset(f);
    if at.None? then None
    else
      var first, n := at.value + 8, EntryCount(f, at.value);
      if forall i :: 0 <= i < n ==> Tag(f, first + 16 * i, DC) then
        Some(seq(n, i requires 0 <= i < n => EntryFrame(f, first + 16 * i)))
      else None
  }

  method TableFromIndex(f: seq<byte>) returns (t: Option<seq<Frame>>)
    ensures t == IndexTable(f)
  {
    if |f| < HDR_SIZE || !Tag(f, 0, RIFF) {
      return None;
    }
    var idxOff := MOVI_FCC + Get32(f, OFF_MOVISZ);
    if idxOff + 8 > |f| || !Tag(f, idxOff, IDX1) {
      return None;
    }
    var count := EntryCount(f, idxOff);
    if count == 0 {
      return None;
    }
    var frames, i := [], 0;
    while i < count
      invariant i <= count && |frames| == i
      invariant forall j :: 0 <= j < i ==> Tag(f, idxOff + 8 + 16 * j, DC)
      invariant forall j :: 0 <= j < i ==> frames[j] == EntryFrame(f, idxOff + 8 + 16 * j)
    {
      var e := idxOff + 8 + 16 * i;
      if !Tag(f, e, DC) {
        return None;
      }
      frames := frames + [EntryFrame(f, e)];
      i := i + 1;
    }
    t := Some(frames);
    assert IndexOffset(f) == Some(idxOff);
    assert frames == seq(count, i requires 0 <= i < count => EntryFrame(f, idxOff + 8 + 16 * i));
  }

  /** The table of a walk over the whole file, any stored size trusted. */
  function WalkTable(f: seq<byte>): Option<seq<Frame>> {
    if |f| < 4 || !Tag(f, 0, RIFF) then None else Some(FramesOf(Scan(f, HDR_SIZE, NO_LIMIT).chunks))
  }

  /** A block gives its frames, and stops at a foreign fourcc or where a chunk does not end inside it. */
  method WalkBlock(block: seq<byte>, blockStart: nat, ghost src: seq<byte>)
    returns (frames: seq<Frame>, p: nat, stop: bool, ghost found: seq<Chunk>)
    requires blockStart + |block| <= |src| && block == src[blockStart..blockStart + |block|]
    ensures p <= |block| && Run(src, blockStart, found, blockStart + p, NO_LIMIT) && frames == FramesOf(found)
    ensures stop || blockStart + |block| == |src| ==> !ChunkAt(src, blockStart + p, NO_LIMIT)
  {
    frames, found, p, stop := [], [], 0, false;
    assert Run(src, blockStart, [], blockStart, NO_LIMIT);
    hide Run, Whole;
    while p + 8 <= |block|
      invariant p <= |block| && !stop && frames == FramesOf(found)
      invariant Run(src, blockStart, found, blockStart + p, NO_LIMIT)
      decreases |block| - p
    {
      Window(src, blockStart, block, p);
      if !Tag(block, p, DC) {
        stop := true;
        break;
      }
      var sz := Get32(block, p + 4);
      if p + Whole(sz) > |block| {
        break;
      }
      RunSnoc(src, blockStart, found, blockStart + p, NO_LIMIT);
      frames, found := frames + [Frame(blockStart + p + 8, sz)], found + [Chunk(blockStart + p, sz)];
      p := p + Whole(sz);
    }
  }

  lemma FramesAppend(cs: seq<Chunk>, ds: seq<Chunk>)
    ensures FramesOf(cs + ds) == FramesOf(cs) + FramesOf(ds)
  {
  }

  lemma NoFramesYet(src: seq<byte>)
    ensures Run(src, HDR_SIZE, [], HDR_SIZE, NO_LIMIT) && FramesOf([]) == []
    ensures |src| < HDR_SIZE ==> Scan(src, HDR_SIZE, NO_LIMIT).chunks == []
  {
  }

  method TableByWalk(src: seq<byte>) returns (t: Option<seq<Frame>>)
    ensures t == WalkTable(src)
  {
    hide Run, Scan, ChunkAt, FramesOf;
    if |src| < 4 || !Tag(src, 0, RIFF) {
      return None;
    }
    NoFramesYet(src);
    if |src| < HDR_SIZE {
      return Some([]);
    }
    var frames, pos, pending, more := [], HDR_SIZE, [], true;
    ghost var cs: seq<Chunk> := [];
    while more
      invariant HDR_SIZE + |pending| <= pos <= |src| && pending == src[pos - |pending|..pos]
      invariant Run(src, HDR_SIZE, cs, pos - |pending|, NO_LIMIT) && frames == FramesOf(cs)
      invariant !more ==> !ChunkAt(src, pos - |pending|, NO_LIMIT)
      decreases more, |src| - pos
    {
      var read := ReadSome(src, pos, BLOCK);
      var block, blockStart := pending + read, pos - |pending|;
      assert block == src[blockStart..blockStart + |block|] by {
        Glue(src, blockStart, pos, pos + |read|);
      }
      var more', p, stop;
      ghost var found;
      more', p, stop, found := WalkBlock(block, blockStart, src);
      RunAppend(src, HDR_SIZE, cs, blockStart, found, blockStart + p, NO_LIMIT);
      FramesAppend(cs, found);
      frames, cs := frames + more', cs + found;
      Sub(src, blockStart, blockStart + |block|, p, |block|);
      pending := block[p..];
      pos := blockStart + p + |pending|;
      more := !stop && read != [];
    }
    RunIsScan(src, HDR_SIZE, cs, pos - |pending|, NO_LIMIT);
    return Some(frames);
  }

  /** The index when it is usable, a walk when it is not. */
  function FrameTable(f: seq<byte>): Option<seq<Frame>> {
    if IndexTable(f).Some? then IndexTable(f) else WalkTable(f)
  }

  /** The bytes of one frame, empty for a dropout or a frame the table does not have. */
  function ReadFrame(f: seq<byte>, table: seq<Frame>, index: nat): seq<byte> {
    if index >= |table| || table[index].size == 0 || table[index].offset >= |f| then []
    else
      var a := table[index];
      f[a.offset..if a.offset + a.size <= |f| then a.offset + a.size else |f|]
  }

  // ---- the tables of a clip we wrote ----

  /** `g` is a closed clip whose body is a run of the chunks `cs`. */
  predicate Sound(g: seq<byte>, head: seq<byte>, body: seq<byte>, cs: seq<Chunk>) {
    && |head| == HDR_SIZE && Tag(head, 0, RIFF) && g == Closed(head, body, cs)
    && Scan(g, HDR_SIZE, NO_LIMIT) == Scanned(cs, HDR_SIZE + |body|, false)
  }

  lemma ClosedRiff(head: seq<byte>, body: seq<byte>, cs: seq<Chunk>)
    requires |head| == HDR_SIZE
    ensures var g := Closed(head, body, cs); forall i :: 0 <= i < HDR_SIZE && !Patched(i) ==> g[i] == head[i]
  {
    var g := Closed(head, body, cs);
    PatchHeaderAt(head, |g|, |cs|, 4 + |body|);
    ClosedSplit(head, body, cs);
    forall i | 0 <= i < HDR_SIZE && !Patched(i) ensures g[i] == head[i] {
      assert g[i] == g[..HDR_SIZE][i];
    }
  }

  /** Entry `i` of a sound clip names the chunk that the walk finds as number `i`. */
  lemma SoundEntry(g: seq<byte>, head: seq<byte>, body: seq<byte>, cs: seq<Chunk>, i: nat)
    requires Sound(g, head, body, cs) && |g| <= TWO_32 && i < |cs|
    ensures var e := HDR_SIZE + |body| + 8 + 16 * i;
      e + 16 <= |g| && Tag(g, e, DC) && EntryFrame(g, e) == Frame(cs[i].off + 8, cs[i].size)
  {
    hide Closed, Scan, Run, Get32, Tag;
    ClosedEntry(head, body, cs, i);
    ScanIsRun(g, HDR_SIZE, NO_LIMIT);
    RunAt(g, HDR_SIZE, cs, HDR_SIZE + |body|, NO_LIMIT, i);
  }

  lemma SoundOffset(g: seq<byte>, head: seq<byte>, body: seq<byte>, cs: seq<Chunk>)
    requires Sound(g, head, body, cs) && |g| <= TWO_32
    ensures var e := HDR_SIZE + |body|;
      && e + 8 <= |g| && EntryCount(g, e) == |cs|
      && IndexOffset(g) == if cs == [] then None else Some(e)
  {
    hide Closed, PatchHeader, Index, IndexBody, IndexEntry, Scan, Run, Get32;
    ClosedRiff(head, body, cs);
    ClosedSplit(head, body, cs);
    ClosedFields(head, body, cs);
    assert |g| == HDR_SIZE + |body| + 8 + 16 * |cs|;
    assert Get32(g, HDR_SIZE + |body| + 4) == 16 * |cs|;
    assert Get32(g, OFF_MOVISZ) == 4 + |body|;
  }

  /** The table from the index of a sound clip is the table of the walk, or there is no frame to index. */
  lemma SoundTables(g: seq<byte>, head: seq<byte>, body: seq<byte>, cs: seq<Chunk>)
    requires Sound(g, head, body, cs) && |g| <= TWO_32
    ensures IndexTable(g) == if cs == [] then None else Some(FramesOf(cs))
    ensures WalkTable(g) == Some(FramesOf(cs)) == FrameTable(g)
  {
    hide Closed, PatchHeader, Index, IndexBody, IndexEntry, Scan, Run, Get32, EntryFrame, EntryCount, IndexOffset;
    var first := HDR_SIZE + |body| + 8;
    SoundOffset(g, head, body, cs);
    ClosedRiff(head, body, cs);
    forall i | 0 <= i < |cs|
      ensures first + 16 * i + 16 <= |g| && Tag(g, first + 16 * i, DC)
      ensures EntryFrame(g, first + 16 * i) == FramesOf(cs)[i]
    {
      SoundEntry(g, head, body, cs, i);
    }
    if cs != [] {
      assert IndexTable(g).value == FramesOf(cs);
    }
  }

  /** What an ingest writes is a sound clip. */
  lemma IngestSound(f: seq<byte>)
    requires Ingest(f).Ok?
    ensures var k := Kept(f); Sound(Ingest(f).value.data, f[..HDR_SIZE], f[HDR_SIZE..k.end], k.chunks)
  {
    var k := Kept(f);
    var body := f[HDR_SIZE..k.end];
    LiftLimit(f, HDR_SIZE, k.chunks, k.end);
    ScanClosed(f[..HDR_SIZE], body, k.chunks, f, NO_LIMIT);
  }

  lemma {:induction false} LiftLimit(f: seq<byte>, from: nat, cs: seq<Chunk>, end: nat)
    requires Run(f, from, cs, end, MAX_FRAME)
    ensures Run(f, from, cs, end, NO_LIMIT)
    decreases |cs|
  {
    if cs != [] {
      LiftLimit(f, from + Whole(cs[0].size), cs[1..], end);
    }
  }

  /** Below 4 GB, frame `i` of an ingested clip is exactly the payload of the `i`-th chunk on the card. */
  lemma IngestedFrames(f: seq<byte>, i: nat)
    requires Ingest(f).Ok? && |Ingest(f).value.data| <= TWO_32
    ensures var g, cs := Ingest(f).value.data, Kept(f).chunks;
      && FrameTable(g) == Some(FramesOf(cs)) == WalkTable(g)
      && (cs != [] ==> IndexTable(g) == WalkTable(g))
      && (i < |cs| ==> cs[i].off + 8 + cs[i].size <= |f| && ReadFrame(g, FramesOf(cs), i) == Payload(f, cs[i]))
      && (i >= |cs| ==> ReadFrame(g, FramesOf(cs), i) == [])
  {
    hide Closed, PatchHeader, Index, IndexBody, IndexEntry, Scan, Run, Sound, Kept, FrameTable, IndexTable, WalkTable;
    var g, k := Ingest(f).value.data, Kept(f);
    IngestSound(f);
    SoundTables(g, f[..HDR_SIZE], f[HDR_SIZE..k.end], k.chunks);
    if i < |k.chunks| {
      CopiedPayload(f, i);
    }
  }

  lemma CopiedPayload(f: seq<byte>, i: nat)
    requires Ingest(f).Ok? && i < |Kept(f).chunks|
    ensures var g, c := Ingest(f).value.data, Kept(f).chunks[i];
      c.off + 8 + c.size <= |f| && c.off + 8 + c.size < |g| && Payload(g, c) == Payload(f, c)
  {
    hide Closed, PatchHeader, Index, IndexBody, IndexEntry, Scan, Run, Kept;
    var g, k := Ingest(f).value.data, Kept(f);
    var body, c := f[HDR_SIZE..k.end], k.chunks[i];
    RunAt(f, HDR_SIZE, k.chunks, k.end, MAX_FRAME, i);
    ClosedSplit(f[..HDR_SIZE], body, k.chunks);
    var a := c.off + 8 - HDR_SIZE;
    Sub(g, HDR_SIZE, k.end, a, a + c.size);
    Sub(f, HDR_SIZE, k.end, a, a + c.size);
  }

  /** Ingesting what an ingest wrote changes nothing and reports nothing torn. */
  lemma IngestIdempotent(f: seq<byte>)
    requires Ingest(f).Ok?
    ensures var a := Ingest(f).value;
      Ingest(a.data) == Ok(a.(droppedTornFrame := false, health := if |a.data| == REC_PREALLOC then CrashCut else Clean))
  {
    hide PatchHeader, Index, IndexBody, IndexEntry, Scan, Run;
    var g, k := Ingest(f).value.data, Kept(f);
    var head, body := f[..HDR_SIZE], f[HDR_SIZE..k.end];
    ScanClosed(head, body, k.chunks, f, MAX_FRAME);
    ClosedRiff(head, body, k.chunks);
    ClosedSplit(head, body, k.chunks);
    assert Kept(g) == Scanned(k.chunks, k.end, false);
    PatchHeaderSame(g[..HDR_SIZE], head, |g|, |k.chunks|, 4 + |body|);
    assert g[HDR_SIZE..k.end] == body;
  }

  // ---- the tables in terms of the bytes ----

  /** An index the header points at, of which `n` entries are in the file. */
  predicate IndexAt(f: seq<byte>, at: nat, n: nat) {
    && |f| >= 224 && f[..4] == Ascii("RIFF") && at == 220 + Get32(f, 216)
    && at + 8 <= |f| && f[at..at + 4] == Ascii("idx1")
    && n == (if Get32(f, at + 4) < |f| - at - 8 then Get32(f, at + 4) else |f| - at - 8) / 16
  }

  /** Entry `i` is one of a frame. */
  predicate IsEntry(f: seq<byte>, at: nat, i: nat) {
    at + 8 + 16 * i + 16 <= |f| && f[at + 8 + 16 * i..at + 8 + 16 * i + 4] == Ascii("00dc")
  }

  /** The index is used exactly when it is where the header says, has an entry, and has frames' entries only. */
  lemma IndexTableMeans(f: seq<byte>)
    ensures IndexTable(f).Some? <==> exists at: nat, n: nat :: IndexAt(f, at, n) && n > 0 && forall i: nat :: i < n ==> IsEntry(f, at, i)
    ensures IndexTable(f).Some? ==> var t, at := IndexTable(f).value, 220 + Get32(f, 216);
      && IndexAt(f, at, |t|) && at + 8 + 16 * |t| <= |f|
      && forall i :: 0 <= i < |t| ==> t[i] == Frame(220 + Get32(f, at + 8 + 16 * i + 8) + 8, Get32(f, at + 8 + 16 * i + 12))
  {
    hide Get32, Tag, IndexOffset, IndexAt, IsEntry, EntryCount, EntryFrame;
    IndexIsAt(f);
    if IndexOffset(f).Some? {
      var at := IndexOffset(f).value;
      var n, t := EntryCount(f, at), IndexTable(f);
      assert IndexAt(f, at, n);
      forall i: nat | i < n ensures IsEntry(f, at, i) <==> Tag(f, at + 8 + 16 * i, DC) {
        EntryIs(f, at, i);
      }
      if i: nat :| i < n && !IsEntry(f, at, i) {
        assert !Tag(f, at + 8 + 16 * i, DC);
      } else {
        forall i | 0 <= i < n ensures Tag(f, at + 8 + 16 * i, DC) {
          assert IsEntry(f, at, i);
        }
      }
      forall i: nat | i < n ensures EntryFrame(f, at + 8 + 16 * i) == Frame(220 + Get32(f, at + 8 + 16 * i + 8) + 8, Get32(f, at + 8 + 16 * i + 12)) {
        FrameOfEntry(f, at + 8 + 16 * i);
      }
    }
  }

  lemma FrameOfEntry(f: seq<byte>, e: nat)
    requires e + 16 <= |f|
    ensures EntryFrame(f, e) == Frame(220 + Get32(f, e + 8) + 8, Get32(f, e + 12))
  {
    hide Get32;
  }

  lemma EntryIs(f: seq<byte>, at: nat, i: nat)
    requires at + 8 + 16 * i + 16 <= |f|
    ensures IsEntry(f, at, i) <==> Tag(f, at + 8 + 16 * i, DC)
  {
    hide Tag;
    TagIsText(f, at + 8 + 16 * i, DC, "00dc");
  }

  lemma IndexIsAt(f: seq<byte>)
    ensures forall at: nat, n: nat :: IndexAt(f, at, n) && n > 0 <==>
      IndexOffset(f) == Some(at) && n == EntryCount(f, at)
    ensures IndexOffset(f).Some? ==> IndexOffset(f).value == 220 + Get32(f, 216)
  {
    hide Get32, Tag;
    if |f| >= HDR_SIZE {
      TagIsText(f, 0, RIFF, "RIFF");
      var at := 220 + Get32(f, 216);
      if at + 8 <= |f| {
        TagIsText(f, at, IDX1, "idx1");
      }
    }
  }

  /** Without a usable index the frames are the scan's, whatever their sizes, each behind its eight-byte chunk header. */
  lemma WalkTableMeans(f: seq<byte>)
    ensures FrameTable(f).None? <==> |f| < 4 || f[..4] != Ascii("RIFF")
    ensures FrameTable(f).Some? && IndexTable(f).None? ==> var t, cs := FrameTable(f).value, Scan(f, 224, NO_LIMIT).chunks;
      |t| == |cs| && forall i :: 0 <= i < |cs| ==> t[i].offset == cs[i].off + 8 && t[i].size == cs[i].size
    ensures IndexTable(f).Some? ==> FrameTable(f) == IndexTable(f)
  {
    hide Scan;
    if |f| >= 4 {
      TagIsText(f, 0, RIFF, "RIFF");
    }
  }

  /** A frame is read as far as the file goes; a dropout and a number beyond the table have no bytes. */
  lemma ReadFrameMeans(f: seq<byte>, table: seq<Frame>, index: nat)
    ensures var r := ReadFrame(f, table, index);
      && (index >= |table| ==> r == [])
      && (index < |table| ==> |r| <= table[index].size && forall k :: 0 <= k < |r| ==>
           table[index].offset + k < |f| && r[k] == f[table[index].offset + k])
      && (index < |table| && |r| < table[index].size ==> table[index].offset + |r| >= |f|)
  {
  }
}
