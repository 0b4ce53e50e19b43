/**
 * Card to library in one sequential pass: a streaming scan that copies whole chunks as it finds them,
 * drops the frame a power cut tore, and closes the copy with a rebuilt index.
 */
module AviIngest {
  import opened Wrappers
  import opened Bytes
  import opened AviFormat
  import opened AviOut

  const REC_PREALLOC: nat := 209_715_200
  const BLOCK: nat := 4 * 1024 * 1024

  datatype Error = TooShort | NotAvi | IndexRange

  datatype Health = Clean | CrashCut

  datatype Ingested = Ingested(data: seq<byte>, frames: nat, drops: nat, droppedTornFrame: bool, health: Health)

  /** A cut clip whose last chunk holds at least `least` bytes and does not end with an EOI marker. */
  predicate LastIsTorn(f: seq<byte>, s: Scanned, least: nat) {
    && s.truncated && s.chunks != []
    && var c := s.chunks[|s.chunks| - 1];
       c.size >= least && c.off + 8 + c.size <= |f| && !EndsEoi(Payload(f, c))
  }

  function WithoutLast(s: Scanned): Scanned
    requires s.chunks != []
  {
    var n := |s.chunks| - 1;
    Scanned(s.chunks[..n], s.chunks[n].off, s.truncated)
  }

  /** The chunks an ingest keeps, and where they end. */
  function Kept(f: seq<byte>): (r: Scanned)
    requires |f| >= HDR_SIZE
    ensures HDR_SIZE <= r.end <= |f| && Run(f, HDR_SIZE, r.chunks, r.end, MAX_FRAME)
  {
    var s := Scan(f, HDR_SIZE, MAX_FRAME);
    ScanIsRun(f, HDR_SIZE, MAX_FRAME);
    if LastIsTorn(f, s, 2) then
      RunAt(f, HDR_SIZE, s.chunks, s.end, MAX_FRAME, |s.chunks| - 1);
      RunInit(f, HDR_SIZE, s.chunks, s.end, MAX_FRAME);
      WithoutLast(s)
    else s
  }

  function Drops(cs: seq<Chunk>): nat {
    if cs == [] then 0 else Drops(cs[..|cs| - 1]) + (if cs[|cs| - 1].size == 0 then 1 else 0)
  }

  /** What an ingest produces, told from the whole file at once. */
  function Ingest(f: seq<byte>): Result<Ingested, Error> {
    if |f| < HDR_SIZE then Err(TooShort)
    else if !Tag(f, 0, RIFF) || !Tag(f, 8, AVI) then Err(NotAvi)
    else
      var s, k := Scan(f, HDR_SIZE, MAX_FRAME), Kept(f);
      if !IndexFits(k.chunks) then Err(IndexRange)
      else Ok(Ingested(Closed(f[..HDR_SIZE], f[HDR_SIZE..k.end], k.chunks), |k.chunks|, Drops(k.chunks),
                       LastIsTorn(f, s, 2), if s.truncated || |f| == REC_PREALLOC then CrashCut else Clean))
  }

  /** One read of the source: any non-empty part of what was asked for, or nothing at the end of the file. */
  method ReadSome(src: seq<byte>, at: nat, most: nat) returns (b: seq<byte>)
    requires at <= |src| && most > 0
    ensures |b| <= most && at + |b| <= |src| && b == src[at..at + |b|]
    ensures b == [] <==> at == |src|
  {
    var n: nat :| n <= most && at + n <= |src| && (n == 0 <==> at == |src|) by {
      assert var n: nat := if at == |src| then 0 else 1; n <= most && at + n <= |src| && (n == 0 <==> at == |src|);
    }
    return src[at..at + n];
  }

  /** The block at hand does not decide what lies at `p`: more bytes are needed. */
  predicate NeedsMore(block: seq<byte>, p: nat) {
    p <= |block| &&
    (p + 8 <= |block| ==>
       Tag(block, p, DC) && Get32(block, p + 4) <= MAX_FRAME && p + Whole(Get32(block, p + 4)) > |block|)
  }

  /** A chunk header reads the same in a block and in the file the block came from. */
  lemma Window(src: seq<byte>, base: nat, block: seq<byte>, p: nat)
    requires base + |block| <= |src| && block == src[base..base + |block|] && p + 8 <= |block|
    ensures Tag(block, p, DC) == Tag(src, base + p, DC) && Follower(block, p) == Follower(src, base + p)
    ensures Get32(block, p + 4) == Get32(src, base + p + 4)
  {
    assert block[p] == src[base + p] && block[p + 1] == src[base + p + 1] && block[p + 2] == src[base + p + 2];
    assert block[p + 3] == src[base + p + 3] && block[p + 4] == src[base + p + 4];
    assert block[p + 5] == src[base + p + 4 + 1] && block[p + 6] == src[base + p + 4 + 2];
    assert block[p + 7] == src[base + p + 4 + 3];
  }

  /**
   * The inner scan of one block, which holds the source's bytes from `base` on. It finds a run of chunks,
   * and then either where the clip really ends or less than one chunk to carry over.
   */
  method ScanBlock(block: seq<byte>, base: nat, ghost src: seq<byte>)
    returns (found: seq<Chunk>, p: nat, stop: bool, truncated: bool)
    requires base + |block| <= |src| && block == src[base..base + |block|]
    ensures p <= |block| && Run(src, base, found, base + p, MAX_FRAME)
    ensures stop ==> !ChunkAt(src, base + p, MAX_FRAME) && truncated == CutAt(src, base + p)
    ensures stop ==> base + p + 8 <= |src|
    ensures !stop ==> !truncated && NeedsMore(block, p) && |block| - p < 8 + MAX_FRAME
  {
    found, p, stop, truncated := [], 0, false, false;
    assert Run(src, base, [], base, MAX_FRAME);
    hide Run, Whole;
    while p + 8 <= |block|
      invariant p <= |block| && !stop && !truncated
      invariant Run(src, base, found, base + p, MAX_FRAME)
      decreases |block| - p
    {
      Window(src, base, block, p);
      if !Tag(block, p, DC) {
        truncated := !Follower(block, p);
        stop := true;
        break;
      }
      var size := Get32(block, p + 4);
      var whole := Whole(size);
      if size > MAX_FRAME {
        truncated := true;
        stop := true;
        break;
      }
      if p + whole > |block| {
        break;
      }
      RunSnoc(src, base, found, base + p, MAX_FRAME);
      found := found + [Chunk(base + p, size)];
      p := p + whole;
    }
  }

  /**
   * One turn of the outer loop: read on, scan what is now at hand, write the whole chunks through and carry
   * the rest. `srcPos` and the carried tail are where they should be for the next turn unless this was the last.
   */
  method NextBlock(src: seq<byte>, dst: OutFile, outPos: nat, pending: seq<byte>)
    returns (found: seq<Chunk>, p: nat, rest: seq<byte>, more: bool, truncated: bool)
    requires outPos + |pending| <= |src| && pending == src[outPos..outPos + |pending|]
    requires dst.data == src[..outPos] && dst.pos == outPos
    modifies dst
    ensures outPos + p + |rest| <= |src| && rest == src[outPos + p..outPos + p + |rest|]
    ensures dst.data == src[..outPos + p] && dst.pos == outPos + p
    ensures Run(src, outPos, found, outPos + p, MAX_FRAME)
    ensures more ==> !truncated && |rest| < 8 + MAX_FRAME && p + |rest| > |pending|
    ensures !more ==> !ChunkAt(src, outPos + p, MAX_FRAME) && truncated == CutAt(src, outPos + p)
  {
    hide Run, ChunkAt, CutAt, NeedsMore, Scan, Tag, Get32;
    var srcPos := outPos + |pending|;
    var read := ReadSome(src, srcPos, BLOCK);
    var block := pending + read;
    assert block == src[outPos..srcPos + |read|] by {
      Glue(src, outPos, srcPos, srcPos + |read|);
    }
    var stop;
    found, p, stop, truncated := ScanBlock(block, outPos, src);
    assert src[..outPos] + block[..p] == src[..outPos + p] && block[p..] == src[outPos + p..srcPos + |read|] by {
      Split(src, outPos, outPos + p, srcPos + |read|);
    }
    if p > 0 {
      dst.Append(block[..p]);
    }
    rest := block[p..];
    more := !stop && read != [];
    if !stop && read == [] {
      assert !ChunkAt(src, outPos + p, MAX_FRAME) && CutAt(src, outPos + p) == (rest != []) by {
        AtEnd(src, outPos + p, block, p);
      }
      if rest != [] {
        truncated := true;
      }
    }
  }

  /** Blocks of any split read from the card give the chunks, the end and the flag of a scan of the whole file. */
  method ScanSource(src: seq<byte>, dst: OutFile) returns (chunks: seq<Chunk>, outPos: nat, truncated: bool)
    requires |src| >= HDR_SIZE && dst.data == src[..HDR_SIZE] && dst.pos == HDR_SIZE
    modifies dst
    ensures Scanned(chunks, outPos, truncated) == Scan(src, HDR_SIZE, MAX_FRAME)
    ensures outPos <= |src| && dst.data == src[..outPos]
  {
    assert Run(src, HDR_SIZE, [], HDR_SIZE, MAX_FRAME);
    hide Scan, Run, ChunkAt, CutAt;
    var pending, more := [], true;
    chunks, outPos, truncated := [], HDR_SIZE, false;
    while more
      invariant HDR_SIZE <= outPos && outPos + |pending| <= |src|
      invariant Run(src, HDR_SIZE, chunks, outPos, MAX_FRAME)
      invariant pending == src[outPos..outPos + |pending|]
      invariant more ==> |pending| < 8 + MAX_FRAME
      invariant dst.data == src[..outPos] && dst.pos == outPos
      invariant !more ==> !ChunkAt(src, outPos, MAX_FRAME) && truncated == CutAt(src, outPos)
      decreases more, |src| - outPos - |pending|
    {
      var found, p;
      found, p, pending, more, truncated := NextBlock(src, dst, outPos, pending);
      RunAppend(src, HDR_SIZE, chunks, outPos, found, outPos + p, MAX_FRAME);
      chunks, outPos := chunks + found, outPos + p;
    }
    RunIsScan(src, HDR_SIZE, chunks, outPos, MAX_FRAME);
  }

  lemma Split(src: seq<byte>, a: nat, b: nat, c: nat)
    requires a <= b <= c <= |src|
    ensures src[a..c][..b - a] == src[a..b] && src[a..c][b - a..] == src[b..c]
    ensures src[..a] + src[a..b] == src[..b]
  {
  }

  /** With the whole file read, what a block does not decide is a chunk that never completed. */
  lemma AtEnd(src: seq<byte>, pos: nat, block: seq<byte>, p: nat)
    requires p <= |block| && pos + |block| - p == |src| && pos >= p && block == src[pos - p..|src|]
    requires NeedsMore(block, p)
    ensures !ChunkAt(src, pos, MAX_FRAME) && CutAt(src, pos) == (block[p..] != [])
  {
    if p + 8 <= |block| {
      Window(src, pos - p, block, p);
    }
  }

  method CountDrops(chunks: seq<Chunk>) returns (n: nat)
    ensures n == Drops(chunks)
  {
    n := 0;
    for i := 0 to |chunks|
      invariant n == Drops(chunks[..i])
    {
      assert chunks[..i + 1][..i] == chunks[..i];
      if chunks[i].size == 0 {
        n := n + 1;
      }
    }
    assert chunks[..|chunks|] == chunks;
  }

  /** A clip cut in mid-write loses exactly the frame that never got its EOI marker. */
  method DropTorn(ghost src: seq<byte>, dst: OutFile, found: seq<Chunk>, outPos: nat, truncated: bool)
    returns (chunks: seq<Chunk>, end: nat, dropped: bool)
    requires |src| >= HDR_SIZE && outPos <= |src| && dst.data == src[..outPos]
    requires Scanned(found, outPos, truncated) == Scan(src, HDR_SIZE, MAX_FRAME)
    modifies dst
    ensures Scanned(chunks, end, truncated) == Kept(src)
    ensures dropped == LastIsTorn(src, Scan(src, HDR_SIZE, MAX_FRAME), 2)
    ensures end <= |src| && dst.data == src[..end]
  {
    hide Scan, Run;
    chunks, end, dropped := found, outPos, false;
    if truncated && found != [] && found[|found| - 1].size >= 2 {
      var last := found[|found| - 1];
      ScanIsRun(src, HDR_SIZE, MAX_FRAME);
      RunAt(src, HDR_SIZE, found, outPos, MAX_FRAME, |found| - 1);
      var at := last.off + 8 + last.size - 2;
      var tail := dst.data[at..at + 2];
      assert tail[0] == src[at] && tail[1] == src[at + 1];
      if !(tail[0] == 0xFF && tail[1] == 0xD9) {
        chunks, end, dropped := found[..|found| - 1], last.off, true;
        dst.Truncate(end);
        assert src[..outPos][..end] == src[..end];
      }
    }
  }

  /** The fused pass. */
  method IngestClip(src: seq<byte>) returns (r: Result<Ingested, Error>)
    ensures r == Ingest(src)
  {
    hide Closed, PatchHeader, Index, Scan, Kept, LastIsTorn, IndexFits, Run, Drops;
    var dst := new OutFile();
    var head := src[..if |src| < HDR_SIZE then |src| else HDR_SIZE];
    if |head| < HDR_SIZE {
      return Err(TooShort);
    }
    if !Tag(head, 0, RIFF) || !Tag(head, 8, AVI) {
      return Err(NotAvi);
    }
    dst.Append(head);
    var chunks, outPos, truncated := ScanSource(src, dst);
    var end, droppedTornFrame;
    chunks, end, droppedTornFrame := DropTorn(src, dst, chunks, outPos, truncated);
    Glue(src, 0, HDR_SIZE, end);
    var closed := dst.Close(src[..HDR_SIZE], src[HDR_SIZE..end], chunks);
    if !closed {
      return Err(IndexRange);
    }
    var drops := CountDrops(chunks);
    return Ok(Ingested(dst.data, |chunks|, drops, droppedTornFrame,
                       if truncated || |src| == REC_PREALLOC then CrashCut else Clean));
  }

  // ---- what the result says, in terms of the scan and of the bytes ----

  /** Why the scan stopped where it did, and which stop means that the clip was cut. */
  lemma ScanStops(f: seq<byte>, limit: nat)
    requires |f| >= HDR_SIZE
    ensures var s := Scan(f, HDR_SIZE, limit);
      && HDR_SIZE <= s.end <= |f|
      && (s.end + 8 > |f| ==> (s.truncated <==> s.end < |f|))
      && (s.end + 8 <= |f| ==> (s.truncated <==> f[s.end..s.end + 4] !in {Ascii("idx1"), Ascii("LIST"), Ascii("JUNK")}))
      && (s.end + 8 <= |f| && f[s.end..s.end + 4] == Ascii("00dc") ==>
           var n := Get32(f, s.end + 4); n > limit || s.end + 8 + (n + 3) / 4 * 4 > |f|)
  {
    hide Scan, Run, Get32, ChunkAt;
    var s := Scan(f, HDR_SIZE, limit);
    ScanIsRun(f, HDR_SIZE, limit);
    if s.end + 8 <= |f| {
      ChunkIs(f, s.end, limit);
      TagIsText(f, s.end, IDX1, "idx1");
      TagIsText(f, s.end, LIST, "LIST");
      TagIsText(f, s.end, JUNK, "JUNK");
    }
  }

  /** Every chunk found is a frame's, of a size that is allowed, complete with its pad; the first one is at 224. */
  lemma ScanFinds(f: seq<byte>, limit: nat, i: nat)
    requires |f| >= HDR_SIZE && i < |Scan(f, HDR_SIZE, limit).chunks|
    ensures var s := Scan(f, HDR_SIZE, limit);
      var c := s.chunks[i];
      && c.off + 8 <= |f| && f[c.off..c.off + 4] == Ascii("00dc") && c.size == Get32(f, c.off + 4) <= limit
      && c.off == (if i == 0 then 224 else s.chunks[i - 1].off + 8 + (s.chunks[i - 1].size + 3) / 4 * 4)
      && c.off + 8 + (c.size + 3) / 4 * 4 <= |f| && (i == |s.chunks| - 1 ==> s.end == c.off + 8 + (c.size + 3) / 4 * 4)
  {
    hide Scan, Get32, Run, ChunkAt, Whole;
    var s := Scan(f, HDR_SIZE, limit);
    ScanIsRun(f, HDR_SIZE, limit);
    RunAt(f, HDR_SIZE, s.chunks, s.end, limit, i);
    ChunkIs(f, s.chunks[i].off, limit);
    WholeIs(s.chunks[i].size);
    if i > 0 {
      RunAt(f, HDR_SIZE, s.chunks, s.end, limit, i - 1);
      WholeIs(s.chunks[i - 1].size);
    }
  }

  /** A chunk is padded to a multiple of four. */
  lemma WholeIs(n: nat)
    ensures Whole(n) == 8 + (n + 3) / 4 * 4
  {
  }

  lemma ChunkIs(f: seq<byte>, at: nat, limit: nat)
    ensures ChunkAt(f, at, limit) <==>
      && at + 8 <= |f| && f[at..at + 4] == Ascii("00dc")
      && Get32(f, at + 4) <= limit && at + 8 + (Get32(f, at + 4) + 3) / 4 * 4 <= |f|
  {
    hide Get32, Whole;
    if at + 8 <= |f| {
      TagIsText(f, at, DC, "00dc");
      WholeIs(Get32(f, at + 4));
    }
  }

  /** The kept chunks are all that were found, or all but a last one of a cut clip that ends in no FF D9. */
  lemma KeptAre(f: seq<byte>)
    requires |f| >= HDR_SIZE
    ensures var s, k := Scan(f, HDR_SIZE, MAX_FRAME), Kept(f);
      var n := |s.chunks|;
      var torn := s.truncated && n > 0 && s.chunks[n - 1].size >= 2
        && !(s.chunks[n - 1].off + 8 + s.chunks[n - 1].size <= |f|
             && f[s.chunks[n - 1].off + 8 + s.chunks[n - 1].size - 2] == 0xFF && f[s.chunks[n - 1].off + 8 + s.chunks[n - 1].size - 1] == 0xD9);
      && k.chunks == (if torn then s.chunks[..n - 1] else s.chunks) && k.end == (if torn then s.chunks[n - 1].off else s.end)
      && (torn <==> LastIsTorn(f, s, 2))
  {
    hide Scan, Run;
    var s := Scan(f, HDR_SIZE, MAX_FRAME);
    if s.chunks != [] {
      ScanFinds(f, MAX_FRAME, |s.chunks| - 1);
    }
  }

  lemma {:induction false} DropsCount(cs: seq<Chunk>)
    ensures Drops(cs) == |set i | 0 <= i < |cs| && cs[i].size == 0|
    decreases |cs|
  {
    var all := set i | 0 <= i < |cs| && cs[i].size == 0;
    if cs != [] {
      var n := |cs| - 1;
      DropsCount(cs[..n]);
      var init := set i | 0 <= i < |cs[..n]| && cs[..n][i].size == 0;
      assert all == if cs[n].size == 0 then init + {n} else init;
    }
  }

  lemma LargestFrame()
    ensures MAX_FRAME == 256 * 1024 && NO_LIMIT == 0xFFFF_FFFF
  {
  }

  /** The report: each of its fields, and each refusal, without the definition of the pass. */
  lemma IngestReports(f: seq<byte>)
    ensures Ingest(f) == Err(TooShort) <==> |f| < 224
    ensures Ingest(f) == Err(NotAvi) <==> |f| >= 224 && !(f[..4] == Ascii("RIFF") && f[8..12] == Ascii("AVI "))
    ensures Ingest(f) == Err(IndexRange) <==>
      && |f| >= 224 && f[..4] == Ascii("RIFF") && f[8..12] == Ascii("AVI ")
      && (16 * |Kept(f).chunks| >= 0x1_0000_0000
          || exists i: nat :: i < |Kept(f).chunks| && Kept(f).chunks[i].off - 220 >= 0x1_0000_0000)
    ensures Ingest(f).Ok? || Ingest(f) == Err(TooShort) || Ingest(f) == Err(NotAvi) || |f| >= 0x8000_0000
    ensures Ingest(f).Ok? ==> var r, s, k := Ingest(f).value, Scan(f, HDR_SIZE, MAX_FRAME), Kept(f);
      && (r.health == CrashCut <==> s.truncated || |f| == 209_715_200)
      && r.frames == |k.chunks| && r.drops == |set i | 0 <= i < |k.chunks| && k.chunks[i].size == 0|
      && (r.droppedTornFrame <==> |k.chunks| < |s.chunks|)
  {
    hide Scan, Closed, Run, Drops, IndexFits;
    if |f| >= HDR_SIZE {
      TagIsText(f, 0, RIFF, "RIFF");
      TagIsText(f, 8, AVI, "AVI ");
      DropsCount(Kept(f).chunks);
      KeptAre(f);
      KeptFit(f);
    }
  }

  /** An ingest keeps the source's header but for counts and sizes, and its bytes up to the end of the last kept chunk. */
  lemma IngestWrites(f: seq<byte>)
    requires Ingest(f).Ok?
    ensures IsClip(Ingest(f).value.data, f[..224], f[224..Kept(f).end], |Kept(f).chunks|)
  {
    hide Kept, Scan, Closed, IsClip, Drops, LastIsTorn, Run, Tag;
    ClosedIsClip(f[..HDR_SIZE], f[HDR_SIZE..Kept(f).end], Kept(f).chunks);
  }

  lemma KeptFit(f: seq<byte>)
    requires |f| >= HDR_SIZE
    ensures !IndexFits(Kept(f).chunks) <==>
      || 16 * |Kept(f).chunks| >= 0x1_0000_0000
      || exists i: nat :: i < |Kept(f).chunks| && Kept(f).chunks[i].off - 220 >= 0x1_0000_0000
    ensures |f| < 0x8000_0000 ==> IndexFits(Kept(f).chunks)
  {
    hide Scan, Kept, Run;
    var k := Kept(f);
    RunBounds(f, HDR_SIZE, k.chunks, k.end, MAX_FRAME);
    forall i: nat | i < |k.chunks| ensures HDR_SIZE <= k.chunks[i].off <= |f| && k.chunks[i].size <= MAX_FRAME && k.chunks[i] in k.chunks {
      RunAt(f, HDR_SIZE, k.chunks, k.end, MAX_FRAME, i);
    }
  }
}
