/** The writer itself, with its sticky error, its 32-bit counters and its index staged in a caller's buffer. */
module AviRecorder {
  import opened Bytes
  import opened AviFormat
  import opened AviOut
  import opened AviWriter
  import opened AviTrace

  /** A card that takes bytes in order and may fail at any call; a failed write may have taken part of its bytes. */
  class Card {
    var pos: nat
    ghost var trace: seq<Poke>
    /** No call on the card fails. */
    const sound: bool

    constructor (s: bool)
      ensures trace == [] && pos == 0 && sound == s
    {
      pos, trace, sound := 0, [], s;
    }

    method Write(b: seq<byte>) returns (r: int)
      modifies this
      ensures r >= 0 ==> trace == old(trace) + Pokes(old(pos), b) && pos == old(pos) + |b|
      ensures r < 0 ==> old(trace) <= trace <= old(trace) + Pokes(old(pos), b)
      ensures sound ==> r == 0
    {
      var taken: nat :| taken <= |b| && (sound ==> taken == |b|) by {
        assert |b| <= |b| && (sound ==> |b| == |b|);
      }
      PokesTake(pos, b, taken);
      trace := trace + Pokes(pos, b[..taken]);
      assert old(trace) + Pokes(old(pos), b) == trace + Pokes(old(pos), b)[taken..];
      if taken == |b| {
        assert b[..taken] == b;
        pos := pos + |b|;
        return 0;
      }
      return -1;
    }

    method Seek(to: nat) returns (r: int)
      modifies this`pos
      ensures (r >= 0 ==> pos == to) && (sound ==> r == 0)
    {
      var ok: bool := *;
      if ok || sound {
        pos := to;
        return 0;
      }
      return -1;
    }

    method Sync() returns (r: int)
      ensures sound ==> r == 0
    {
      var ok: bool := *;
      if ok || sound {
        return 0;
      }
      return -1;
    }
  }

  class Avi {
    const io: Card
    var g: Geometry
    var idx: array?<byte>
    var idxCap: nat
    var frames: u32
    var moviBytes: u32
    var off: u32
    var error: int
    ghost var ops: seq<Op>

    constructor (card: Card)
      ensures io == card && error == 0
    {
      io, g, idx, idxCap := card, Geometry(0, 0, 1, 1), null, 0;
      frames, moviBytes, off, error, ops := 0, 0, 0, 0, [];
    }

    ghost function Stages(): nat
      reads this
    {
      if |Done(ops)| < idxCap then |Done(ops)| else idxCap
    }

    /** The index buffer holds the entries of the frames so far, up to its capacity. */
    ghost predicate Staged()
      reads this, idx
    {
      if idx == null then idxCap == 0
      else idx.Length >= 16 * idxCap && idx[..16 * Stages()] == IndexBody(ChunksOf(Done(ops))[..Stages()])
    }

    /** No error so far, and the counters say what the trace holds. */
    ghost predicate Valid()
      reads this, io, idx
    {
      && error == 0 && g.Valid()
      && io.trace == Trace(g, ops)
      && frames == |Done(ops)| && moviBytes == |Movi(Done(ops))|
      && off == End(Done(ops)) == io.pos
      && Staged()
    }

    /** What a call leaves behind when it failed: part of what it meant to write, and the error. */
    twostate predicate Failed(r: int, full: seq<Poke>)
      reads this, io
    {
      r < 0 && error == r && ops == old(ops) && old(io.trace) <= io.trace <= full
    }

    /** Appends to the file; the running end moves with it. */
    method Wr(b: seq<byte>) returns (r: int)
      requires error == 0
      modifies this`error, this`off, io
      ensures r == 0 ==> error == 0 && off == (old(off) + |b|) % TWO_32
      ensures r == 0 ==> io.trace == old(io.trace) + Pokes(old(io.pos), b) && io.pos == old(io.pos) + |b|
      ensures r != 0 ==> r < 0 && error == r && old(io.trace) <= io.trace <= old(io.trace) + Pokes(old(io.pos), b)
      ensures io.sound ==> r == 0
    {
      var w := io.Write(b);
      if w < 0 {
        error := w;
        return w;
      }
      off := (off + |b|) % TWO_32;
      return 0;
    }

    method Patch32(at: nat, v: nat) returns (r: int)
      requires error == 0
      modifies this`error, io
      ensures r == error
      ensures r == 0 ==> io.trace == old(io.trace) + Pokes(at, Put32(v))
      ensures r != 0 ==> r < 0 && old(io.trace) <= io.trace <= old(io.trace) + Pokes(at, Put32(v))
      ensures io.sound ==> r == 0
    {
      var w := io.Seek(at);
      if w >= 0 {
        w := io.Write(Put32(v));
      }
      if w < 0 {
        error := w;
      }
      return error;
    }

    /** Patches counts and sizes, then puts the file position where the next chunk belongs. */
    method PatchRunning(riff: nat) returns (r: int)
      requires error == 0 && frames == |Done(ops)| && moviBytes == |Movi(Done(ops))| && End(Done(ops)) < TWO_32
      modifies this`error, io
      ensures r == error
      ensures r == 0 ==> io.trace == old(io.trace) + RunningPokes(Done(ops), riff) && io.pos == off
      ensures r != 0 ==> r < 0 && old(io.trace) <= io.trace <= old(io.trace) + RunningPokes(Done(ops), riff)
      ensures io.sound ==> r == 0
    {
      hide Trace, Done, Movi, Pokes, Put32, IndexBody, ChunksOf;
      ghost var t0, n, m := io.trace, Put32(frames), Put32(moviBytes + 4);
      ghost var a, b, c, d := Pokes(OFF_RIFFSZ, Put32(riff)), Pokes(OFF_TOTALFRAMES, n), Pokes(OFF_STRH_LEN, n), Pokes(OFF_MOVISZ, m);
      assert t0 + (a + b + c + d) == t0 + a + b + c + d;
      var e := Patch32(OFF_RIFFSZ, riff);
      if e != 0 {
        return error;
      }
      e := Patch32(OFF_TOTALFRAMES, frames);
      if e != 0 {
        return error;
      }
      e := Patch32(OFF_STRH_LEN, frames);
      if e != 0 {
        return error;
      }
      assert moviBytes + 4 == |Movi(Done(ops))| + 4 < TWO_32;
      e := Patch32(OFF_MOVISZ, (moviBytes + 4) % TWO_32);
      if e != 0 {
        return error;
      }
      var w := io.Seek(off);
      if w < 0 {
        error := w;
      }
      return error;
    }

    /** Stages one index entry, unless the buffer is full. Runs before the counters advance. */
    method IdxStage(len: u32)
      requires Valid()
      modifies idx
      ensures Valid()
      ensures idx != null && frames < idxCap ==>
        idx[..16 * (frames + 1)] == IndexBody(ChunksOf(Done(ops)) + [Chunk(off, len)])
    {
      hide Trace, Done, Movi, IndexEntry, ChunksOf, IndexBody;
      if idx == null || frames >= idxCap {
        return;
      }
      ghost var cs := ChunksOf(Done(ops));
      var c := Chunk(HDR_SIZE + moviBytes, len);
      assert cs[..frames] == cs;
      ghost var before := idx[..16 * frames];
      Store(idx, 16 * frames, IndexEntry(c));
      Glue(idx[..], 0, 16 * frames, 16 * frames + 16);
      assert idx[..16 * frames] == before;
      IndexSnoc(cs, c);
    }

    /** Writes the header and leaves the position at the first chunk. */
    method Start(w: nat, h: nat, rate: u32, scale: u32, buf: array?<byte>, cap: nat) returns (r: int)
      requires w < 0x1_0000 && h < 0x1_0000 && (buf != null ==> buf.Length >= 16 * cap)
      requires io.trace == []
      modifies this, io
      ensures r == 0 ==> Valid() && ops == [] && g == Geometry(w, h, rate, scale) && idx == buf
      ensures r == 0 ==> idxCap == if buf == null then 0 else cap
      ensures r != 0 <== rate == 0 || scale == 0
      ensures io.sound ==> (r == 0 <==> rate > 0 && scale > 0)
      ensures r != 0 && rate != 0 && scale != 0 ==>
        r < 0 && error == r && io.trace <= Pokes(0, Header(Geometry(w, h, rate, scale), EMPTY))
    {
      hide Header, Pokes;
      if rate == 0 || scale == 0 {
        return -1;
      }
      g := Geometry(w, h, rate, scale);
      frames, moviBytes, off, error := 0, 0, 0, 0;
      idx, idxCap := buf, if buf == null then 0 else cap;
      ops := [];
      ghost var hdr := Header(g, EMPTY);
      assert [] + Pokes(0, hdr) == Pokes(0, hdr);
      var e := io.Seek(0);
      if e < 0 {
        error := e;
        return e;
      }
      r := Wr(Header(g, EMPTY));
      if r == 0 {
        assert ChunksOf([])[..0] == [];
        assert idx != null ==> idx[..0] == [];
      }
    }

    /** The counters once a chunk's bytes are with the card. */
    method ChunkDone(len: u32, ghost c: Stored)
      requires error == 0 && g.Valid() && c.Padded() && |c.payload| == len
      requires frames == |Done(ops)| && moviBytes == |Movi(Done(ops))| && End(Done(ops)) < TWO_32
      requires io.trace == Trace(g, ops) + OpPokes(Frame(c), Done(ops))
      requires io.pos == End(Done(ops)) + Whole(|c.payload|) && off == io.pos % TWO_32
      requires Staged()
      requires idx != null && frames < idxCap ==>
        idx[..16 * (frames + 1)] == IndexBody(ChunksOf(Done(ops)) + [Chunk(End(Done(ops)), |c.payload|)])
      modifies this`frames, this`moviBytes, this`ops
      ensures ops == old(ops) + [Frame(c)] && io.trace == Trace(g, ops)
      ensures End(Done(ops)) < TWO_32 ==> Valid()
    {
      hide Trace, Pokes, IndexBody, Movi, ChunksOf, ChunkBytes, Done;
      ghost var done := Done(ops);
      TraceSnoc(g, ops, Frame(c));
      MoviSnoc(done, c);
      MoviLength(done + [c]);
      moviBytes := (moviBytes + Whole(len)) % TWO_32;
      frames := (frames + 1) % TWO_32;
      ops := ops + [Frame(c)];
      if End(Done(ops)) < TWO_32 && idx != null {
        if |done| < idxCap {
          assert ChunksOf(Done(ops))[..|done| + 1] == ChunksOf(Done(ops));
        } else {
          assert ChunksOf(Done(ops))[..idxCap] == ChunksOf(done)[..idxCap];
        }
      }
    }

    /** A write that is skipped when there is nothing to write. */
    method WrAny(b: seq<byte>) returns (r: int)
      requires error == 0
      modifies this`error, this`off, io
      ensures r == 0 ==> error == 0 && off == (old(off) + |b|) % TWO_32
      ensures r == 0 ==> io.trace == old(io.trace) + Pokes(old(io.pos), b) && io.pos == old(io.pos) + |b|
      ensures r != 0 ==> r < 0 && error == r && old(io.trace) <= io.trace <= old(io.trace) + Pokes(old(io.pos), b)
      ensures io.sound ==> r == 0
    {
      if |b| == 0 {
        assert io.trace == io.trace + Pokes(io.pos, b);
        return 0;
      }
      r := Wr(b);
    }

    /** Chunk header, payload and pad, as up to three writes. */
    method WriteChunk(jpeg: seq<byte>, pad: seq<byte>) returns (r: int)
      requires error == 0
      modifies this`error, this`off, io
      ensures r == 0 ==> error == 0 && off == (old(off) + 8 + |jpeg| + |pad|) % TWO_32
      ensures r == 0 ==> io.pos == old(io.pos) + 8 + |jpeg| + |pad|
      ensures r == 0 ==> io.trace == old(io.trace) + Pokes(old(io.pos), ChunkBytes(Stored(jpeg, pad)))
      ensures r != 0 ==> r < 0 && error == r
      ensures r != 0 ==> old(io.trace) <= io.trace <= old(io.trace) + Pokes(old(io.pos), ChunkBytes(Stored(jpeg, pad)))
      ensures io.sound ==> r == 0
    {
      hide Pokes, ChunkBytes, ChunkHead;
      ghost var t0, at := io.trace, io.pos;
      ghost var p1, p2, p3 := Pokes(at, ChunkHead(|jpeg|)), Pokes(at + 8, jpeg), Pokes(at + 8 + |jpeg|, pad);
      ChunkPokes(at, Stored(jpeg, pad));
      ghost var full := t0 + p1 + p2 + p3;
      assert t0 + (p1 + p2 + p3) == full;
      WrapTwice(off + 8, |jpeg|);
      WrapTwice(off + 8 + |jpeg|, |pad|);
      r := Wr(ChunkHead(|jpeg|));
      if r == 0 {
        r := WrAny(jpeg);
        PrefixTrans(t0, t0 + p1, io.trace);
      } else {
        PrefixTrans(io.trace, t0 + p1, t0 + p1 + p2);
      }
      if r == 0 {
        r := WrAny(pad);
        PrefixTrans(t0, t0 + p1 + p2, io.trace);
      } else {
        PrefixTrans(io.trace, t0 + p1 + p2, full);
      }
    }

    /** One frame, padded with zeros. */
    method AddFrame(jpeg: seq<byte>) returns (r: int)
      requires |jpeg| < TWO_32 && (error == 0 ==> Valid())
      modifies this, io, idx
      ensures g == old(g) && idx == old(idx) && idxCap == old(idxCap)
      ensures old(error) != 0 ==> r == old(error) && error == r && ops == old(ops) && io.trace == old(io.trace)
      ensures old(error) == 0 && r == 0 ==> error == 0 && g.Valid()
      ensures old(error) == 0 && r == 0 ==>
        ops == old(ops) + [Frame(Stored(jpeg, Zeros(Pad4(|jpeg|))))] && io.trace == Trace(g, ops)
      ensures old(error) == 0 && r == 0 && End(Done(ops)) < TWO_32 ==> Valid()
      ensures old(error) == 0 && r != 0 ==>
        Failed(r, old(io.trace) + OpPokes(Frame(Stored(jpeg, Zeros(Pad4(|jpeg|)))), Done(ops)))
      ensures old(error) == 0 && io.sound ==> r == 0
    {
      hide Trace, Pokes, IndexBody, Movi, ChunksOf, ChunkBytes, Done, Zeros;
      if error != 0 {
        return error;
      }
      IdxStage(|jpeg|);
      var pad := Zeros(Pad4(|jpeg|));
      r := WriteChunk(jpeg, pad);
      if r == 0 {
        ChunkDone(|jpeg|, Stored(jpeg, pad));
      }
    }

    /** A zero-size chunk, which keeps wall-clock time true across a dropped frame. */
    method AddEmptyFrame() returns (r: int)
      requires error == 0 ==> Valid()
      modifies this, io, idx
      ensures g == old(g) && idx == old(idx) && idxCap == old(idxCap)
      ensures old(error) != 0 ==> r == old(error) && error == r && ops == old(ops) && io.trace == old(io.trace)
      ensures old(error) == 0 && r == 0 ==> error == 0 && g.Valid()
      ensures old(error) == 0 && r == 0 ==> ops == old(ops) + [Frame(Stored([], []))] && io.trace == Trace(g, ops)
      ensures old(error) == 0 && r == 0 && End(Done(ops)) < TWO_32 ==> Valid()
      ensures old(error) == 0 && r != 0 ==> Failed(r, old(io.trace) + OpPokes(Frame(Stored([], [])), Done(ops)))
      ensures old(error) == 0 && io.sound ==> r == 0
    {
      assert Zeros(Pad4(0)) == [];
      r := AddFrame([]);
    }

    /**
     * The zero-copy path: the caller's buffer holds header, payload and pad, and goes out as one write. The
     * caller has filled the header for `len`.
     */
    method AddRaw(chunk: seq<byte>, len: u32, ghost c: Stored) returns (r: int)
      requires c.Padded() && |c.payload| == len && chunk == ChunkBytes(c)
      requires error == 0 ==> Valid()
      modifies this, io, idx
      ensures g == old(g) && idx == old(idx) && idxCap == old(idxCap)
      ensures old(error) != 0 ==> r == old(error) && error == r && ops == old(ops) && io.trace == old(io.trace)
      ensures old(error) == 0 && r == 0 ==> error == 0 && g.Valid()
      ensures old(error) == 0 && r == 0 ==> ops == old(ops) + [Frame(c)] && io.trace == Trace(g, ops)
      ensures old(error) == 0 && r == 0 && End(Done(ops)) < TWO_32 ==> Valid()
      ensures old(error) == 0 && r != 0 ==> Failed(r, old(io.trace) + OpPokes(Frame(c), Done(ops)))
      ensures old(error) == 0 && io.sound ==> r == 0
    {
      hide Trace, Pokes, IndexBody, Movi, ChunksOf, ChunkBytes, Done;
      if error != 0 {
        return error;
      }
      IdxStage(len);
      r := Wr(chunk);
      if r == 0 {
        ChunkDone(len, c);
      }
    }

    /** Brings the header up to date in a clip that stays open, with no index promised. */
    method RefreshHeader() returns (r: int)
      requires error == 0 ==> Valid()
      modifies this`error, this`ops, io
      ensures old(error) != 0 ==> r == old(error) && error == r && ops == old(ops) && io.trace == old(io.trace)
      ensures old(error) == 0 && r == 0 ==> ops == old(ops) + [Refresh] && Valid()
      ensures old(error) == 0 && r != 0 ==> Failed(r, old(io.trace) + OpPokes(Refresh, Done(ops)))
      ensures old(error) == 0 && io.sound ==> r == 0
    {
      hide Trace, RunningPokes, IndexBody, Movi, ChunksOf, Done;
      if error != 0 {
        return error;
      }
      r := PatchRunning(HDR_SIZE - 8 + moviBytes);
      if r == 0 {
        TraceSnoc(g, ops, Refresh);
        ops := ops + [Refresh];
      }
    }

    /** The staged entries behind an 'idx1' header. */
    method WriteIndex() returns (r: int)
      requires Valid() && idx != null
      modifies this`error, this`off, io
      ensures r == 0 ==> error == 0 && io.trace == old(io.trace) + Pokes(End(Done(ops)), FinalIndex(Done(ops), idxCap))
      ensures r != 0 ==> r < 0 && error == r
      ensures r != 0 ==> old(io.trace) <= io.trace <= old(io.trace) + Pokes(End(Done(ops)), FinalIndex(Done(ops), idxCap))
      ensures io.sound ==> r == 0
    {
      hide Trace, IndexBody, Movi, ChunksOf, Done, Pokes, Put32;
      var n := if frames < idxCap then frames else idxCap;
      ghost var t0, at, entries := io.trace, io.pos, IndexBody(ChunksOf(Done(ops))[..n]);
      var head := IDX1 + Put32(16 * n);
      PokesAppend(at, head, entries);
      assert t0 + (Pokes(at, head) + Pokes(at + 8, entries)) == t0 + Pokes(at, head) + Pokes(at + 8, entries);
      var body := idx[..16 * n];
      r := Wr(head);
      if r != 0 {
        return;
      }
      if n > 0 {
        r := Wr(body);
      } else {
        assert Pokes(at + 8, entries) == [];
      }
    }

    /** Closes the clip. Only when the index is with the card may the header promise it. */
    method Finalize() returns (r: int)
      requires error == 0 ==> Valid()
      modifies this`error, this`off, io
      ensures old(error) != 0 ==> r == old(error) && error == r && io.trace == old(io.trace)
      ensures old(error) == 0 && r == 0 ==> io.trace == old(io.trace) + FinishPokes(Done(ops), idx != null, idxCap)
      ensures old(error) == 0 && r != 0 ==>
        r < 0 && error == r && old(io.trace) <= io.trace <= old(io.trace) + FinishPokes(Done(ops), idx != null, idxCap)
      ensures old(error) == 0 && io.sound ==> r == 0
    {
      hide Trace, RunningPokes, IndexBody, Movi, ChunksOf, Done, Pokes, Put32, FinalIndex;
      if error != 0 {
        return error;
      }
      var riff := HDR_SIZE - 8 + moviBytes;
      ghost var done, t0 := Done(ops), io.trace;
      if idx == null {
        r := PatchRunning(riff);
      } else {
        var n := if frames < idxCap then frames else idxCap;
        ghost var a := Pokes(End(done), FinalIndex(done, idxCap));
        ghost var f := Pokes(OFF_FLAGS, Put32(FLAG_INTERLEAVED + FLAG_HASINDEX));
        ghost var z := RunningPokes(done, riff + 8 + 16 * n);
        assert |FinalIndex(done, idxCap)| == 8 + 16 * n;
        assert t0 + (a + f + z) == t0 + a + f + z;
        r := WriteIndex();
        if r == 0 {
          r := Patch32(OFF_FLAGS, FLAG_INTERLEAVED + FLAG_HASINDEX);
        }
        if r == 0 {
          r := PatchRunning(riff + 8 + 16 * n);
        }
      }
      if r == 0 {
        r := io.Sync();
        if r < 0 {
          error := r;
        } else {
          r := 0;
        }
      }
    }
  }

  lemma IndexSnoc(cs: seq<Chunk>, c: Chunk)
    ensures IndexBody(cs + [c]) == IndexBody(cs) + IndexEntry(c)
  {
    assert (cs + [c])[..|cs|] == cs;
  }
}
