/**
 * The container the recorder writes: a 224-byte header, then '00dc' chunks padded to four bytes, then
 * an 'idx1' index. Everything that reads or writes a clip is specified with the functions of this module.
 */
module AviFormat {
  import opened Bytes

  const HDR_SIZE: nat := 224
  const MOVI_FCC: nat := 220
  const OFF_RIFFSZ: nat := 4
  const OFF_FLAGS: nat := 44
  const OFF_TOTALFRAMES: nat := 48
  const OFF_STRH_LEN: nat := 140
  const OFF_MOVISZ: nat := 216
  const FLAG_INTERLEAVED: nat := 0x100
  const FLAG_HASINDEX: nat := 0x10
  const KEYFRAME: nat := 0x10
  const MAX_FRAME: nat := 0x40000
  /** Any stored size passes this limit: it is the largest 32-bit value. */
  const NO_LIMIT: nat := 0xFFFF_FFFF

  const RIFF: seq<byte> := [0x52, 0x49, 0x46, 0x46]
  const AVI: seq<byte> := [0x41, 0x56, 0x49, 0x20]
  const DC: seq<byte> := [0x30, 0x30, 0x64, 0x63]
  const IDX1: seq<byte> := [0x69, 0x64, 0x78, 0x31]
  const LIST: seq<byte> := [0x4C, 0x49, 0x53, 0x54]
  const JUNK: seq<byte> := [0x4A, 0x55, 0x4E, 0x4B]

  /** The four-character code at `at`. */
  predicate Tag(f: seq<byte>, at: nat, tag: seq<byte>)
    requires at + 4 <= |f| && |tag| == 4
  {
    f[at] == tag[0] && f[at + 1] == tag[1] && f[at + 2] == tag[2] && f[at + 3] == tag[3]
  }

  lemma TagIsText(f: seq<byte>, at: nat, tag: seq<byte>, text: string)
    requires at + 4 <= |f| && |tag| == 4 && Ascii(text) == tag
    ensures Tag(f, at, tag) <==> f[at..at + 4] == Ascii(text)
  {
    assert f[at] == f[at..at + 4][0] && f[at + 1] == f[at..at + 4][1] && f[at + 2] == f[at..at + 4][2] && f[at + 3] == f[at..at + 4][3];
  }

  /** What a clip that was closed by the recorder may have behind its frames. */
  predicate Follower(f: seq<byte>, at: nat)
    requires at + 4 <= |f|
  {
    Tag(f, at, IDX1) || Tag(f, at, LIST) || Tag(f, at, JUNK)
  }

  /** A chunk is named by the offset of its fourcc and its stored, unpadded size. */
  datatype Chunk = Chunk(off: nat, size: nat)

  function Pad4(n: nat): nat {
    (4 - n % 4) % 4
  }

  function Whole(size: nat): (r: nat)
    ensures 8 + size <= r <= 11 + size
    ensures size <= MAX_FRAME ==> r <= 8 + MAX_FRAME
  {
    8 + size + Pad4(size)
  }

  /** A complete chunk of at most `limit` bytes lies at `pos`. */
  predicate ChunkAt(f: seq<byte>, pos: nat, limit: nat) {
    && pos + 8 <= |f|
    && Tag(f, pos, DC)
    && Get32(f, pos + 4) <= limit
    && pos + Whole(Get32(f, pos + 4)) <= |f|
  }

  /** The walk stopped at `pos` for a reason that means the clip was cut. */
  predicate CutAt(f: seq<byte>, pos: nat) {
    if pos + 8 > |f| then pos != |f|
    else !Follower(f, pos)
  }

  datatype Scanned = Scanned(chunks: seq<Chunk>, end: nat, truncated: bool)

  /** The chunks that follow one another from `pos`, where they end, and whether a cut ended them. */
  function Scan(f: seq<byte>, pos: nat, limit: nat): (r: Scanned)
    ensures pos <= r.end && (pos <= |f| ==> r.end <= |f|)
    decreases |f| - pos
  {
    if ChunkAt(f, pos, limit) then
      var size := Get32(f, pos + 4);
      var rest := Scan(f, pos + Whole(size), limit);
      Scanned([Chunk(pos, size)] + rest.chunks, rest.end, rest.truncated)
    else
      Scanned([], pos, CutAt(f, pos))
  }

  /** The JPEG bytes of a chunk. */
  function Payload(f: seq<byte>, c: Chunk): seq<byte>
    requires c.off + 8 + c.size <= |f|
  {
    f[c.off + 8..c.off + 8 + c.size]
  }

  /** Ends with a JPEG end-of-image marker. */
  predicate EndsEoi(p: seq<byte>) {
    |p| >= 2 && p[|p| - 2] == 0xFF && p[|p| - 1] == 0xD9
  }

  /** `cs` lie one after another in `f`, from `from` up to `end`. */
  predicate Run(f: seq<byte>, from: nat, cs: seq<Chunk>, end: nat, limit: nat)
    decreases |cs|
  {
    if cs == [] then from == end
    else
      && cs[0].off == from
      && ChunkAt(f, from, limit)
      && cs[0].size == Get32(f, from + 4)
      && Run(f, from + Whole(cs[0].size), cs[1..], end, limit)
  }

  lemma {:induction false} ScanIsRun(f: seq<byte>, pos: nat, limit: nat)
    ensures var s := Scan(f, pos, limit);
      Run(f, pos, s.chunks, s.end, limit) && !ChunkAt(f, s.end, limit) && s.truncated == CutAt(f, s.end)
    decreases |f| - pos
  {
    if ChunkAt(f, pos, limit) {
      ScanIsRun(f, pos + Whole(Get32(f, pos + 4)), limit);
    }
  }

  /** A run that cannot be extended is what the scan finds. */
  lemma {:induction false} RunIsScan(f: seq<byte>, pos: nat, cs: seq<Chunk>, end: nat, limit: nat)
    requires Run(f, pos, cs, end, limit) && !ChunkAt(f, end, limit)
    ensures Scan(f, pos, limit) == Scanned(cs, end, CutAt(f, end))
    decreases |cs|
  {
    if cs != [] {
      RunIsScan(f, pos + Whole(cs[0].size), cs[1..], end, limit);
      assert cs == [cs[0]] + cs[1..];
    }
  }

  /** What a run says about the chunk at index `i`. */
  lemma {:induction false} RunAt(f: seq<byte>, from: nat, cs: seq<Chunk>, end: nat, limit: nat, i: nat)
    requires Run(f, from, cs, end, limit) && i < |cs|
    ensures var c := cs[i];
      from <= c.off && c.off + Whole(c.size) <= end && ChunkAt(f, c.off, limit) && c.size == Get32(f, c.off + 4)
    ensures i + 1 == |cs| ==> cs[i].off + Whole(cs[i].size) == end
    ensures i + 1 < |cs| ==> cs[i].off + Whole(cs[i].size) == cs[i + 1].off
    ensures i == 0 ==> cs[i].off == from
    decreases |cs|
  {
    RunBounds(f, from, cs, end, limit);
    if i > 0 {
      RunAt(f, from + Whole(cs[0].size), cs[1..], end, limit, i - 1);
    } else if |cs| > 1 {
      RunBounds(f, from + Whole(cs[0].size), cs[1..], end, limit);
      assert cs[1] == cs[1..][0];
    } else {
      assert cs[1..] == [];
    }
    RunBounds(f, from + Whole(cs[0].size), cs[1..], end, limit);
  }

  lemma {:induction false} RunBounds(f: seq<byte>, from: nat, cs: seq<Chunk>, end: nat, limit: nat)
    requires Run(f, from, cs, end, limit)
    ensures from + 8 * |cs| <= end
    ensures from <= |f| ==> end <= |f|
    decreases |cs|
  {
    if cs != [] {
      RunBounds(f, from + Whole(cs[0].size), cs[1..], end, limit);
    }
  }

  /** Appending a chunk to a run. */
  lemma {:induction false} RunSnoc(f: seq<byte>, from: nat, cs: seq<Chunk>, end: nat, limit: nat)
    requires Run(f, from, cs, end, limit) && ChunkAt(f, end, limit)
    ensures var size := Get32(f, end + 4);
      Run(f, from, cs + [Chunk(end, size)], end + Whole(size), limit)
    decreases |cs|
  {
    var ds := cs + [Chunk(end, Get32(f, end + 4))];
    if cs == [] {
      assert ds[1..] == [];
    } else {
      RunSnoc(f, from + Whole(cs[0].size), cs[1..], end, limit);
      assert ds[1..] == cs[1..] + [Chunk(end, Get32(f, end + 4))];
    }
  }

  /** Dropping the last chunk of a run. */
  lemma {:induction false} RunInit(f: seq<byte>, from: nat, cs: seq<Chunk>, end: nat, limit: nat)
    requires Run(f, from, cs, end, limit) && cs != []
    ensures Run(f, from, cs[..|cs| - 1], cs[|cs| - 1].off, limit)
    decreases |cs|
  {
    if |cs| == 1 {
      assert cs[..0] == [];
    } else {
      RunInit(f, from + Whole(cs[0].size), cs[1..], end, limit);
      assert cs[..|cs| - 1][1..] == cs[1..][..|cs| - 2];
    }
  }

  lemma {:induction false} RunAppend(f: seq<byte>, from: nat, cs: seq<Chunk>, mid: nat, ds: seq<Chunk>, end: nat, limit: nat)
    requires Run(f, from, cs, mid, limit) && Run(f, mid, ds, end, limit)
    ensures Run(f, from, cs + ds, end, limit)
    decreases |cs|
  {
    if cs == [] {
      assert cs + ds == ds;
    } else {
      RunAppend(f, from + Whole(cs[0].size), cs[1..], mid, ds, end, limit);
      assert (cs + ds)[1..] == cs[1..] + ds;
    }
  }

  /** Distance from an earlier offset; chunks are never before the point they are measured from. */
  function Since(off: nat, from: nat): nat {
    if off < from then 0 else off - from
  }

  function Moved(cs: seq<Chunk>, from: nat, to: nat): (r: seq<Chunk>)
    ensures |r| == |cs|
  {
    seq(|cs|, i requires 0 <= i < |cs| => Chunk(Since(cs[i].off, from) + to, cs[i].size))
  }

  lemma ChunkMoved(f: seq<byte>, from: nat, limit: nat, end: nat, g: seq<byte>, to: nat)
    requires ChunkAt(f, from, limit) && from + Whole(Get32(f, from + 4)) <= end <= |f|
    requires to + (end - from) <= |g| && f[from..end] == g[to..to + (end - from)]
    ensures ChunkAt(g, to, limit) && Get32(g, to + 4) == Get32(f, from + 4)
  {
    assert forall i {:trigger g[to + i]} :: 0 <= i < 8 ==> g[to + i] == g[to..to + (end - from)][i] == f[from..end][i] == f[from + i];
    assert g[to] == g[to + 0] && g[to + 1 + 3] == g[to + 4] && g[to + 5] == g[to + 4 + 1] && g[to + 6] == g[to + 4 + 2] && g[to + 7] == g[to + 4 + 3];
  }

  lemma RunCons(f: seq<byte>, from: nat, size: nat, rest: seq<Chunk>, end: nat, limit: nat)
    requires ChunkAt(f, from, limit) && size == Get32(f, from + 4)
    requires Run(f, from + Whole(size), rest, end, limit)
    ensures Run(f, from, [Chunk(from, size)] + rest, end, limit)
  {
    assert ([Chunk(from, size)] + rest)[1..] == rest;
  }

  /** The same bytes at another offset, in another file, hold the same run. */
  lemma {:induction false} RunMoved(f: seq<byte>, from: nat, cs: seq<Chunk>, end: nat, limit: nat, g: seq<byte>, to: nat, last: nat)
    requires Run(f, from, cs, end, limit)
    requires from <= end <= |f| && to <= last <= |g| && last - to == end - from
    requires f[from..end] == g[to..last]
    ensures Run(g, to, Moved(cs, from, to), last, limit)
    decreases |cs|
  {
    hide Whole, Moved, ChunkAt, Get32;
    if cs == [] {
      assert |Moved(cs, from, to)| == 0;
      assert Moved(cs, from, to) == [];
    } else {
      var step := Whole(cs[0].size);
      RunBounds(f, from + step, cs[1..], end, limit);
      assert Run(g, to + step, Moved(cs[1..], from + step, to + step), last, limit) by {
        Sub(f, from, end, step, end - from);
        Sub(g, to, last, step, end - from);
        RunMoved(f, from + step, cs[1..], end, limit, g, to + step, last);
      }
      ChunkMoved(f, from, limit, end, g, to);
      MovedTail(f, from, cs, end, limit, to);
      RunCons(g, to, cs[0].size, Moved(cs[1..], from + step, to + step), last, limit);
    }
  }

  lemma MovedTail(f: seq<byte>, from: nat, cs: seq<Chunk>, end: nat, limit: nat, to: nat)
    requires Run(f, from, cs, end, limit) && cs != []
    ensures var step := Whole(cs[0].size);
      Moved(cs, from, to) == [Chunk(to, cs[0].size)] + Moved(cs[1..], from + step, to + step)
  {
    var step := Whole(cs[0].size);
    var moved, tail := Moved(cs, from, to), Moved(cs[1..], from + step, to + step);
    forall i | 0 <= i < |tail| ensures moved[1..][i] == tail[i] {
      RunAt(f, from + step, cs[1..], end, limit, i);
    }
  }

  /** A run only looks at its own bytes. */
  lemma RunSame(f: seq<byte>, from: nat, cs: seq<Chunk>, end: nat, limit: nat, g: seq<byte>)
    requires Run(f, from, cs, end, limit)
    requires from <= end <= |f| && end <= |g| && f[from..end] == g[from..end]
    ensures Run(g, from, cs, end, limit)
  {
    var moved := Moved(cs, from, from);
    forall i | 0 <= i < |cs| ensures moved[i] == cs[i] {
      RunAt(f, from, cs, end, limit, i);
    }
    assert moved == cs;
    RunMoved(f, from, cs, end, limit, g, from, end);
  }

  /** One 16-byte index entry; offsets count from the 'movi' fourcc. */
  function IndexEntry(c: Chunk): (r: seq<byte>)
    ensures |r| == 16
  {
    DC + Put32(KEYFRAME) + Put32(Since(c.off, MOVI_FCC)) + Put32(c.size)
  }

  function IndexBody(cs: seq<Chunk>): (r: seq<byte>)
    ensures |r| == 16 * |cs|
  {
    if cs == [] then [] else IndexBody(cs[..|cs| - 1]) + IndexEntry(cs[|cs| - 1])
  }

  function Index(cs: seq<Chunk>): (r: seq<byte>)
    ensures |r| == 8 + 16 * |cs|
  {
    IDX1 + Put32(16 * |cs|) + IndexBody(cs)
  }

  lemma {:induction false} IndexBodyAt(cs: seq<Chunk>, i: nat)
    requires i < |cs|
    ensures IndexBody(cs)[16 * i..16 * i + 16] == IndexEntry(cs[i])
    decreases |cs|
  {
    var init := cs[..|cs| - 1];
    if i < |init| {
      IndexBodyAt(init, i);
      assert IndexBody(cs)[16 * i..16 * i + 16] == IndexBody(init)[16 * i..16 * i + 16];
    }
  }

  /** What an index entry says, read back from the file that holds it. */
  lemma EntryFields(f: seq<byte>, at: nat, c: Chunk)
    requires at + 16 <= |f| && f[at..at + 16] == IndexEntry(c)
    ensures Tag(f, at, DC) && Get32(f, at + 4) == 0x10
    ensures Get32(f, at + 8) == (Since(c.off, MOVI_FCC)) % TWO_32
    ensures Get32(f, at + 12) == c.size % TWO_32
  {
    var e := IndexEntry(c);
    Sub(f, at, at + 16, 0, 4);
    Sub(f, at, at + 16, 4, 8);
    Sub(f, at, at + 16, 8, 12);
    Sub(f, at, at + 16, 12, 16);
    assert e[4..8] == Put32(KEYFRAME);
    GetInside(f, at + 4, Put32(KEYFRAME));
    GetPut32(KEYFRAME);
    assert e[0..4] == DC && e[8..12] == Put32(Since(c.off, MOVI_FCC)) && e[12..16] == Put32(c.size);
    GetInside(f, at + 8, Put32(Since(c.off, MOVI_FCC)));
    GetInside(f, at + 12, Put32(c.size));
    GetPut32(Since(c.off, MOVI_FCC));
    GetPut32(c.size);
  }

  /** The five header fields a closed clip carries, written over `f` in the order they are patched. */
  function PatchHeader(f: seq<byte>, finalLen: nat, frames: nat, movi: nat): (r: seq<byte>)
    requires |f| >= HDR_SIZE && finalLen >= 8
    ensures |r| == |f|
  {
    var f1 := Overlay(f, OFF_RIFFSZ, Put32(finalLen - 8));
    var f2 := Overlay(f1, OFF_TOTALFRAMES, Put32(frames));
    var f3 := Overlay(f2, OFF_STRH_LEN, Put32(frames));
    var f4 := Overlay(f3, OFF_MOVISZ, Put32(movi));
    Overlay(f4, OFF_FLAGS, Put32(FLAG_INTERLEAVED + FLAG_HASINDEX))
  }

  /** A byte of the five patched fields. */
  predicate Patched(i: int) {
    4 <= i < 8 || 44 <= i < 52 || 140 <= i < 144 || 216 <= i < 220
  }

  /** Patching changes the five fields and nothing else. */
  lemma PatchHeaderAt(f: seq<byte>, finalLen: nat, frames: nat, movi: nat)
    requires |f| >= HDR_SIZE && finalLen >= 8
    ensures var r := PatchHeader(f, finalLen, frames, movi);
      && (forall i :: 0 <= i < |f| && !Patched(i) ==> r[i] == f[i])
      && r[4..8] == Put32(finalLen - 8) && r[48..52] == Put32(frames) && r[140..144] == Put32(frames)
      && r[216..220] == Put32(movi) && r[44..48] == Put32(0x110)
  {
  }

  /** Two headers that agree outside the patched fields become the same header. */
  lemma PatchHeaderSame(f: seq<byte>, g: seq<byte>, finalLen: nat, frames: nat, movi: nat)
    requires |f| == |g| >= HDR_SIZE && finalLen >= 8
    requires forall i :: 0 <= i < |f| && !Patched(i) ==> f[i] == g[i]
    ensures PatchHeader(f, finalLen, frames, movi) == PatchHeader(g, finalLen, frames, movi)
  {
    var x, y := PatchHeader(f, finalLen, frames, movi), PatchHeader(g, finalLen, frames, movi);
    PatchHeaderAt(f, finalLen, frames, movi);
    PatchHeaderAt(g, finalLen, frames, movi);
    forall i | 0 <= i < |f| ensures x[i] == y[i] {
      if 4 <= i < 8 {
        assert x[i] == x[4..8][i - 4] && y[i] == y[4..8][i - 4];
      } else if 44 <= i < 48 {
        assert x[i] == x[44..48][i - 44] && y[i] == y[44..48][i - 44];
      } else if 48 <= i < 52 {
        assert x[i] == x[48..52][i - 48] && y[i] == y[48..52][i - 48];
      } else if 140 <= i < 144 {
        assert x[i] == x[140..144][i - 140] && y[i] == y[140..144][i - 140];
      } else if 216 <= i < 220 {
        assert x[i] == x[216..220][i - 216] && y[i] == y[216..220][i - 216];
      }
    }
  }

  lemma PatchHeaderTail(head: seq<byte>, rest: seq<byte>, finalLen: nat, frames: nat, movi: nat)
    requires |head| >= HDR_SIZE && finalLen >= 8
    ensures PatchHeader(head + rest, finalLen, frames, movi) == PatchHeader(head, finalLen, frames, movi) + rest
  {
    var x, y := PatchHeader(head + rest, finalLen, frames, movi), PatchHeader(head, finalLen, frames, movi);
    PatchHeaderAt(head + rest, finalLen, frames, movi);
    PatchHeaderAt(head, finalLen, frames, movi);
    forall i | 0 <= i < |x| ensures x[i] == (y + rest)[i] {
      if Patched(i) {
        if 4 <= i < 8 {
          assert x[i] == x[4..8][i - 4] && y[i] == y[4..8][i - 4];
        } else if 44 <= i < 48 {
          assert x[i] == x[44..48][i - 44] && y[i] == y[44..48][i - 44];
        } else if 48 <= i < 52 {
          assert x[i] == x[48..52][i - 48] && y[i] == y[48..52][i - 48];
        } else if 140 <= i < 144 {
          assert x[i] == x[140..144][i - 140] && y[i] == y[140..144][i - 140];
        } else {
          assert x[i] == x[216..220][i - 216] && y[i] == y[216..220][i - 216];
        }
      }
    }
  }

  /** Every index field fits its 32 bits; the desktop's buffer writer throws on one that does not. */
  predicate IndexFits(cs: seq<Chunk>)
  {
    16 * |cs| < TWO_32 && forall c :: c in cs ==> Since(c.off, MOVI_FCC) < TWO_32 && c.size < TWO_32
  }

  /** A closed clip: the patched header, the movi bytes and an index of every chunk in them. */
  function Closed(head: seq<byte>, body: seq<byte>, cs: seq<Chunk>): (r: seq<byte>)
    requires |head| == HDR_SIZE
    ensures |r| == HDR_SIZE + |body| + 8 + 16 * |cs|
  {
    PatchHeader(head, HDR_SIZE + |body| + 8 + 16 * |cs|, |cs|, 4 + |body|) + body + Index(cs)
  }

  /** The parts of a closed clip, by offset. */
  lemma ClosedSplit(head: seq<byte>, body: seq<byte>, cs: seq<Chunk>)
    requires |head| == HDR_SIZE
    ensures var r, e := Closed(head, body, cs), HDR_SIZE + |body|;
      && r[..HDR_SIZE] == PatchHeader(head, |r|, |cs|, 4 + |body|) && r[HDR_SIZE..e] == body
      && Tag(r, e, IDX1) && r[e + 4..e + 8] == Put32(16 * |cs|) && r[e + 8..] == IndexBody(cs)
  {
    hide PatchHeader, IndexBody, Put32;
    var r, e := Closed(head, body, cs), HDR_SIZE + |body|;
    var p := PatchHeader(head, |r|, |cs|, 4 + |body|);
    var size, entries := Put32(16 * |cs|), IndexBody(cs);
    assert r == p + body + (IDX1 + size + entries) == p + body + IDX1 + size + entries;
  }

  /** The header and index fields of a closed clip. */
  lemma ClosedFields(head: seq<byte>, body: seq<byte>, cs: seq<Chunk>)
    requires |head| == HDR_SIZE
    ensures var r, e := Closed(head, body, cs), HDR_SIZE + |body|;
      && Get32(r, OFF_RIFFSZ) == (|r| - 8) % TWO_32 && Get32(r, OFF_FLAGS) == 0x110
      && Get32(r, OFF_TOTALFRAMES) == |cs| % TWO_32 && Get32(r, OFF_STRH_LEN) == |cs| % TWO_32
      && Get32(r, OFF_MOVISZ) == (4 + |body|) % TWO_32 && Get32(r, e + 4) == (16 * |cs|) % TWO_32
  {
    var r, e, n := Closed(head, body, cs), HDR_SIZE + |body|, |cs|;
    var p := PatchHeader(head, |r|, n, 4 + |body|);
    ClosedSplit(head, body, cs);
    PatchHeaderAt(head, |r|, n, 4 + |body|);
    GetInside(r, e + 4, Put32(16 * n));
    GetPut32(16 * n);
    FieldOf(r, p, OFF_RIFFSZ, |r| - 8);
    FieldOf(r, p, OFF_FLAGS, 0x110);
    FieldOf(r, p, OFF_TOTALFRAMES, n);
    FieldOf(r, p, OFF_STRH_LEN, n);
    FieldOf(r, p, OFF_MOVISZ, 4 + |body|);
  }

  /** `r` is `head` with new counts and sizes, `body`, and the header of an index of `n` entries. */
  ghost predicate IsClip(r: seq<byte>, head: seq<byte>, body: seq<byte>, n: nat)
    requires |head| == 224
  {
    var b := |body|;
    && |r| == 224 + b + 8 + 16 * n
    && (forall i :: 0 <= i < 224 && !(4 <= i < 8) && !(44 <= i < 52) && !(140 <= i < 144) && !(216 <= i < 220) ==> r[i] == head[i])
    && Get32(r, 4) == (|r| - 8) % TWO_32 && Get32(r, 44) == 0x110 && Get32(r, 48) == n % TWO_32 && Get32(r, 140) == n % TWO_32
    && Get32(r, 216) == (4 + b) % TWO_32
    && r[224..224 + b] == body && r[224 + b..228 + b] == Ascii("idx1") && Get32(r, 228 + b) == 16 * n % TWO_32
  }

  lemma ClosedIsClip(head: seq<byte>, body: seq<byte>, cs: seq<Chunk>)
    requires |head| == HDR_SIZE
    ensures IsClip(Closed(head, body, cs), head, body, |cs|)
  {
    hide Closed, Get32, Put32, PatchHeader, Ascii, Tag, IndexBody;
    var r := Closed(head, body, cs);
    IndexTagSpelt();
    ClosedSplit(head, body, cs);
    ClosedFields(head, body, cs);
    PatchHeaderAt(head, |r|, |cs|, 4 + |body|);
    TagIsText(r, HDR_SIZE + |body|, IDX1, "idx1");
    forall i | 0 <= i < 224 && !Patched(i) ensures r[i] == head[i] {
      assert r[i] == r[..HDR_SIZE][i];
    }
  }

  lemma IndexTagSpelt()
    ensures IDX1 == Ascii("idx1")
  {
  }

  /** Entry `i` of a closed clip's index describes its chunk number `i`. */
  lemma ClosedEntry(head: seq<byte>, body: seq<byte>, cs: seq<Chunk>, i: nat)
    requires |head| == HDR_SIZE && i < |cs|
    ensures var r, e := Closed(head, body, cs), HDR_SIZE + |body| + 8 + 16 * i;
      && e + 16 <= |r| && Tag(r, e, DC) && Get32(r, e + 4) == 0x10 && Get32(r, e + 8) == Since(cs[i].off, MOVI_FCC) % TWO_32
      && Get32(r, e + 12) == cs[i].size % TWO_32
  {
    hide Closed, IndexBody, IndexEntry, PatchHeader, Get32, Tag;
    var r, first := Closed(head, body, cs), HDR_SIZE + |body| + 8;
    ClosedSplit(head, body, cs);
    IndexBodyAt(cs, i);
    assert r[first..] == r[first..|r|];
    Sub(r, first, |r|, 16 * i, 16 * i + 16);
    EntryFields(r, first + 16 * i, cs[i]);
  }

  lemma FieldOf(r: seq<byte>, head: seq<byte>, at: nat, v: nat)
    requires at + 4 <= |head| <= |r| && r[..|head|] == head && head[at..at + 4] == Put32(v)
    ensures Get32(r, at) == v % TWO_32
  {
    assert r[at..at + 4] == r[..|head|][at..at + 4];
    GetInside(r, at, Put32(v));
    GetPut32(v);
  }

  /** A closed clip depends on the header it started from only outside the patched fields. */
  lemma ClosedSameHead(h1: seq<byte>, h2: seq<byte>, body: seq<byte>, cs: seq<Chunk>)
    requires |h1| == |h2| == HDR_SIZE && forall i :: 0 <= i < HDR_SIZE && !Patched(i) ==> h1[i] == h2[i]
    ensures Closed(h1, body, cs) == Closed(h2, body, cs)
  {
    hide PatchHeader, Index;
    PatchHeaderSame(h1, h2, HDR_SIZE + |body| + 8 + 16 * |cs|, |cs|, 4 + |body|);
  }

  /** Walking a closed clip finds the chunks its body holds and stops, uncut, at the index. */
  lemma ScanClosed(head: seq<byte>, body: seq<byte>, cs: seq<Chunk>, f: seq<byte>, limit: nat)
    requires |head| == HDR_SIZE && HDR_SIZE + |body| <= |f| && f[HDR_SIZE..HDR_SIZE + |body|] == body
    requires Run(f, HDR_SIZE, cs, HDR_SIZE + |body|, limit)
    ensures Scan(Closed(head, body, cs), HDR_SIZE, limit) == Scanned(cs, HDR_SIZE + |body|, false)
  {
    var r, e := Closed(head, body, cs), HDR_SIZE + |body|;
    ClosedSplit(head, body, cs);
    RunSame(f, HDR_SIZE, cs, e, limit, r);
    assert !ChunkAt(r, e, limit);
    RunIsScan(r, HDR_SIZE, cs, e, limit);
  }
}
