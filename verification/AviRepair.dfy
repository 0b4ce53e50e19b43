/**
 * The two-pass path: walk the chunks, then write a sound copy. The walk differs from the ingest scan in that
 * it trusts any stored size and keeps a last frame whose payload is complete but whose pad is cut off.
 */
module AviRepair {
  import opened Wrappers
  import opened Bytes
  import opened AviFormat
  import opened AviOut
  import opened AviIngest

  datatype RepairError = NothingRecoverable | Range

  /** The payload of the chunk at `pos` is complete, but the file ends inside its pad. */
  predicate PadCut(f: seq<byte>, pos: nat) {
    && pos + 8 <= |f| && Tag(f, pos, DC)
    && var size := Get32(f, pos + 4); pos + 8 + size <= |f| < pos + Whole(size)
  }

  /** What the walker finds after the 'movi' fourcc. */
  function Walk(f: seq<byte>): (w: Scanned) {
    var s := Scan(f, HDR_SIZE, NO_LIMIT);
    if PadCut(f, s.end) then Scanned(s.chunks + [Chunk(s.end, Get32(f, s.end + 4))], |f|, true) else s
  }

  method WalkMovi(f: seq<byte>) returns (w: Scanned)
    ensures w == Walk(f)
  {
    assert Run(f, HDR_SIZE, [], HDR_SIZE, NO_LIMIT);
    hide Run, Scan;
    var chunks, off := [], HDR_SIZE;
    while true
      invariant Run(f, HDR_SIZE, chunks, off, NO_LIMIT)
      decreases |f| - off
    {
      if off + 8 > |f| {
        RunIsScan(f, HDR_SIZE, chunks, off, NO_LIMIT);
        return Scanned(chunks, off, off != |f|);
      }
      if !Tag(f, off, DC) {
        RunIsScan(f, HDR_SIZE, chunks, off, NO_LIMIT);
        return Scanned(chunks, off, !Follower(f, off));
      }
      var size := Get32(f, off + 4);
      if off + 8 + size > |f| {
        RunIsScan(f, HDR_SIZE, chunks, off, NO_LIMIT);
        return Scanned(chunks, off, true);
      }
      if off + 8 + size + Pad4(size) > |f| {
        RunIsScan(f, HDR_SIZE, chunks, off, NO_LIMIT);
        return Scanned(chunks + [Chunk(off, size)], |f|, true);
      }
      RunSnoc(f, HDR_SIZE, chunks, off, NO_LIMIT);
      chunks, off := chunks + [Chunk(off, size)], off + 8 + size + Pad4(size);
    }
  }

  /** The walk's chunks are a run, but for a last one whose pad is missing. */
  lemma WalkChunks(f: seq<byte>, i: nat)
    requires i < |Walk(f).chunks|
    ensures var c, w := Walk(f).chunks[i], Walk(f);
      && HDR_SIZE <= c.off && c.off + 8 + c.size <= w.end <= |f| && c.size == Get32(f, c.off + 4)
      && (i + 1 < |w.chunks| ==> c.off + Whole(c.size) == w.chunks[i + 1].off)
      && (i + 1 == |w.chunks| ==> w.end == if c.off + Whole(c.size) <= |f| then c.off + Whole(c.size) else |f|)
  {
    var s := Scan(f, HDR_SIZE, NO_LIMIT);
    ScanIsRun(f, HDR_SIZE, NO_LIMIT);
    if |s.chunks| > 0 {
      RunAt(f, HDR_SIZE, s.chunks, s.end, NO_LIMIT, |s.chunks| - 1);
    }
    if i < |s.chunks| {
      RunAt(f, HDR_SIZE, s.chunks, s.end, NO_LIMIT, i);
    }
  }

  /** The chunks a repair keeps, and where the copy of the movi ends. */
  function RepairKept(f: seq<byte>): (k: Scanned)
    requires Walk(f).chunks != []
    ensures HDR_SIZE <= k.end <= |f|
  {
    var w := Walk(f);
    WalkChunks(f, |w.chunks| - 1);
    if LastIsTorn(f, w, 4) then WithoutLast(w) else w
  }

  /** What a repair writes. */
  function Repair(f: seq<byte>): Result<seq<byte>, RepairError> {
    if Walk(f).chunks == [] then Err(NothingRecoverable)
    else
      var k := RepairKept(f);
      if IndexFits(k.chunks) then Ok(Closed(f[..HDR_SIZE], f[HDR_SIZE..k.end], k.chunks)) else Err(Range)
  }

  /** Copies [from, to) with reads of any split. */
  method CopyRange(src: seq<byte>, dst: OutFile, from: nat, to: nat) returns (written: nat)
    requires from <= to <= |src| && dst.pos == |dst.data|
    modifies dst
    ensures written == to - from && dst.data == old(dst.data) + src[from..to] && dst.pos == |dst.data|
  {
    var pos := from;
    written := 0;
    assert dst.data == old(dst.data) + src[from..pos];
    while pos < to
      invariant from <= pos <= to && written == pos - from
      invariant dst.data == old(dst.data) + src[from..pos] && dst.pos == |dst.data|
    {
      var read := ReadSome(src, pos, if to - pos < BLOCK then to - pos else BLOCK);
      dst.Append(read);
      Glue(src, from, pos, pos + |read|);
      pos, written := pos + |read|, written + |read|;
    }
  }

  method LastFrameIsTorn(f: seq<byte>, c: Chunk) returns (torn: bool)
    requires c.off + 8 + c.size <= |f|
    ensures torn == (c.size >= 4 && !EndsEoi(Payload(f, c)))
  {
    if c.size < 4 {
      return false;
    }
    var at := c.off + 8 + c.size - 2;
    return !(f[at] == 0xFF && f[at + 1] == 0xD9);
  }

  method RepairTo(f: seq<byte>) returns (r: Result<seq<byte>, RepairError>)
    ensures r == Repair(f)
  {
    hide Closed, PatchHeader, Index, IndexFits, Scan, Walk, EndsEoi;
    var res := WalkMovi(f);
    if res.chunks == [] {
      return Err(NothingRecoverable);
    }
    var dst := new OutFile();
    var chunks, end, last := res.chunks, res.end, res.chunks[|res.chunks| - 1];
    WalkChunks(f, |res.chunks| - 1);
    if res.truncated && last.size > 0 {
      var torn := LastFrameIsTorn(f, last);
      if torn {
        chunks, end := chunks[..|chunks| - 1], last.off;
      }
    }
    assert chunks == RepairKept(f).chunks && end == RepairKept(f).end;
    hide RepairKept, LastIsTorn;
    var copied := CopyRange(f, dst, 0, end);
    assert dst.data == f[..HDR_SIZE] + f[HDR_SIZE..end] by {
      Glue(f, 0, HDR_SIZE, end);
    }
    var closed := dst.Close(f[..HDR_SIZE], f[HDR_SIZE..end], chunks);
    return if closed then Ok(dst.data) else Err(Range);
  }

  // ---- the fused pass against the two-pass path ----

  /** A chunk the ingest scan accepts as well: no larger than a bitstream slot, its pad inside the file. */
  predicate Fits(f: seq<byte>, c: Chunk) {
    c.size <= MAX_FRAME && c.off + Whole(c.size) <= |f|
  }

  lemma {:induction false} LimitPrefix(f: seq<byte>, pos: nat)
    ensures var s, n := Scan(f, pos, MAX_FRAME), Scan(f, pos, NO_LIMIT);
      && |s.chunks| <= |n.chunks| && s.chunks == n.chunks[..|s.chunks|]
      && (forall c :: c in s.chunks ==> c.size <= MAX_FRAME)
      && (|s.chunks| == |n.chunks| ==> s.end == n.end && s.truncated == CutAt(f, n.end))
      && (|s.chunks| < |n.chunks| ==>
           s.truncated && s.end == n.chunks[|s.chunks|].off && n.chunks[|s.chunks|].size > MAX_FRAME)
    decreases |f| - pos
  {
    if ChunkAt(f, pos, NO_LIMIT) && Get32(f, pos + 4) <= MAX_FRAME {
      LimitPrefix(f, pos + Whole(Get32(f, pos + 4)));
    }
  }

  /** The ingest scan finds the walk's chunks up to the first one that does not fit. */
  lemma ScanAgainstWalk(f: seq<byte>)
    ensures var s, w := Scan(f, HDR_SIZE, MAX_FRAME), Walk(f);
      && |s.chunks| <= |w.chunks| && s.chunks == w.chunks[..|s.chunks|]
      && (forall i :: 0 <= i < |s.chunks| ==> Fits(f, w.chunks[i]))
      && (|s.chunks| == |w.chunks| ==> s == w)
      && (|s.chunks| < |w.chunks| ==>
           s.truncated && s.end == w.chunks[|s.chunks|].off && !Fits(f, w.chunks[|s.chunks|]))
  {
    hide Scan, Run, Get32;
    var s, n := Scan(f, HDR_SIZE, MAX_FRAME), Scan(f, HDR_SIZE, NO_LIMIT);
    LimitPrefix(f, HDR_SIZE);
    ScanIsRun(f, HDR_SIZE, MAX_FRAME);
    ScanIsRun(f, HDR_SIZE, NO_LIMIT);
    forall i | 0 <= i < |s.chunks| ensures Fits(f, s.chunks[i]) && s.chunks[i] == Walk(f).chunks[i] {
      RunAt(f, HDR_SIZE, s.chunks, s.end, MAX_FRAME, i);
    }
  }

  /**
   * When the two paths write the same file: every walked chunk fits and the last one is not torn with a size
   * of 2 or 3; or only the last walked chunk does not fit, the repair drops it as torn, and the chunk before it
   * gives the ingest nothing to drop.
   */
  predicate Agree(f: seq<byte>) {
    var w := Walk(f);
    var n := |w.chunks|;
    if forall c :: c in w.chunks ==> Fits(f, c) then
      !(LastIsTorn(f, w, 2) && w.chunks[n - 1].size < 4)
    else
      && (forall c :: c in w.chunks[..n - 1] ==> Fits(f, c))
      && LastIsTorn(f, w, 4)
      && (n > 1 ==> !LastIsTorn(f, Scanned(w.chunks[..n - 1], w.chunks[n - 1].off, true), 2))
  }

  lemma KeptAgree(f: seq<byte>)
    requires |f| >= HDR_SIZE && Walk(f).chunks != []
    ensures Agree(f) ==> Kept(f).chunks == RepairKept(f).chunks && Kept(f).end == RepairKept(f).end
    ensures !Agree(f) ==> |Kept(f).chunks| != |RepairKept(f).chunks|
  {
    hide Scan, Walk, EndsEoi, Fits, ChunkAt;
    var s, w := Scan(f, HDR_SIZE, MAX_FRAME), Walk(f);
    var n := |w.chunks|;
    ScanAgainstWalk(f);
    WalkChunks(f, n - 1);
    if |s.chunks| == n {
      assert forall c :: c in w.chunks ==> Fits(f, c);
    } else {
      assert !Fits(f, w.chunks[|s.chunks|]) && w.chunks[|s.chunks|] in w.chunks;
      if |s.chunks| == n - 1 {
        assert s == Scanned(w.chunks[..n - 1], w.chunks[n - 1].off, true);
        assert forall c :: c in w.chunks[..n - 1] ==> Fits(f, c);
      } else {
        assert w.chunks[..n - 1][|s.chunks|] == w.chunks[|s.chunks|];
      }
    }
  }

  /** The fused pass writes what walk-then-repair writes, exactly when `Agree` holds. */
  lemma IngestRefinesRepair(f: seq<byte>)
    requires |f| >= HDR_SIZE && Tag(f, 0, RIFF) && Tag(f, 8, AVI) && Walk(f).chunks != []
    ensures Agree(f) ==> Ingest(f).Ok? == Repair(f).Ok?
    ensures Ingest(f).Ok? && Repair(f).Ok? ==> (Ingest(f).value.data == Repair(f).value <==> Agree(f))
  {
    hide Closed, Agree, Kept, RepairKept, Run, Scan, Walk, LastIsTorn, Drops, Tag;
    KeptAgree(f);
    var k, r := Kept(f), RepairKept(f);
    if !Agree(f) && IndexFits(k.chunks) && IndexFits(r.chunks) {
      ClosedDiffer(f[..HDR_SIZE], f[HDR_SIZE..k.end], k.chunks, f[HDR_SIZE..r.end], r.chunks);
    }
  }

  /** Closed clips with different numbers of chunks are different files. */
  lemma ClosedDiffer(head: seq<byte>, body1: seq<byte>, cs1: seq<Chunk>, body2: seq<byte>, cs2: seq<Chunk>)
    requires |head| == HDR_SIZE && |cs1| != |cs2| && 16 * |cs1| < TWO_32 && 16 * |cs2| < TWO_32
    ensures Closed(head, body1, cs1) != Closed(head, body2, cs2)
  {
    hide Closed, Get32;
    ClosedFields(head, body1, cs1);
    ClosedFields(head, body2, cs2);
    assert |cs1| % TWO_32 == |cs1| && |cs2| % TWO_32 == |cs2|;
  }

  // ---- the walk and the repair in terms of the bytes ----

  /** The walk is the scan with any size trusted, and a last chunk that lacks nothing but pad bytes. */
  lemma WalkMeans(f: seq<byte>)
    requires |f| >= HDR_SIZE
    ensures var s, w := Scan(f, HDR_SIZE, NO_LIMIT), Walk(f);
      var lacksPad := s.end + 8 <= |f| && f[s.end..s.end + 4] == Ascii("00dc") && s.end + 8 + Get32(f, s.end + 4) <= |f|
        && |f| < s.end + 8 + (Get32(f, s.end + 4) + 3) / 4 * 4;
      if lacksPad then w == Scanned(s.chunks + [Chunk(s.end, Get32(f, s.end + 4))], |f|, true) else w == s
  {
    hide Scan, Get32, Tag, Whole;
    var s := Scan(f, HDR_SIZE, NO_LIMIT);
    if s.end + 8 <= |f| {
      TagIsText(f, s.end, DC, "00dc");
      WholeIs(Get32(f, s.end + 4));
    }
  }

  /** What a repair leaves out, and when it refuses. */
  lemma RepairMeans(f: seq<byte>)
    requires |f| >= HDR_SIZE
    ensures Repair(f) == Err(NothingRecoverable) <==> Walk(f).chunks == []
    ensures Walk(f).chunks != [] ==> var w, k := Walk(f), RepairKept(f);
      var n := |w.chunks|;
      var last := w.chunks[n - 1];
      && last.off + 8 + last.size <= |f|
      && var torn := w.truncated && last.size >= 4
           && !(f[last.off + 8 + last.size - 2] == 0xFF && f[last.off + 8 + last.size - 1] == 0xD9);
         k.chunks == (if torn then w.chunks[..n - 1] else w.chunks) && k.end == (if torn then last.off else w.end)
    ensures Repair(f).Ok? ==> var k := RepairKept(f); IsClip(Repair(f).value, f[..224], f[224..k.end], |k.chunks|)
  {
    hide Scan, Walk, Closed, IsClip;
    if Walk(f).chunks != [] {
      WalkChunks(f, |Walk(f).chunks| - 1);
      ClosedIsClip(f[..HDR_SIZE], f[HDR_SIZE..RepairKept(f).end], RepairKept(f).chunks);
    }
  }
}
