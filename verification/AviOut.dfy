/** The destination file of the desktop's writers, and the index buffer they append to it. */
module AviOut {
  import opened Wrappers
  import opened Bytes
  import opened AviFormat

  /** A file opened for writing: its bytes and the position of the next sequential write. */
  class OutFile {
    var data: seq<byte>
    var pos: nat

    constructor ()
      ensures data == [] && pos == 0
    {
      data, pos := [], 0;
    }

    method Append(b: seq<byte>)
      requires pos == |data|
      modifies this
      ensures data == old(data) + b && pos == |data|
    {
      data, pos := Overlay(data, pos, b), pos + |b|;
      assert data == old(data) + b;
    }

    method WriteAt(at: nat, b: seq<byte>)
      modifies this`data
      ensures data == Overlay(old(data), at, b)
    {
      data := Overlay(data, at, b);
    }

    method Truncate(len: nat)
      requires len <= |data|
      modifies this`data
      ensures data == old(data)[..len]
    {
      data := data[..len];
    }

    /** The four running fields and then the flags, each one a write of its own. */
    method Patch(finalLen: nat, frames: nat, movi: nat)
      requires |data| >= HDR_SIZE && finalLen >= 8
      modifies this`data
      ensures data == PatchHeader(old(data), finalLen, frames, movi)
      ensures forall i :: 0 <= i < |old(data)| && !Patched(i) ==> data[i] == old(data)[i]
      ensures data[4..8] == Put32(finalLen - 8) && data[44..48] == Put32(FLAG_INTERLEAVED + FLAG_HASINDEX)
      ensures data[48..52] == data[140..144] == Put32(frames) && data[216..220] == Put32(movi) && |data| == |old(data)|
    {
      ghost var f := data;
      WriteAt(OFF_RIFFSZ, Put32(finalLen - 8));
      WriteAt(OFF_TOTALFRAMES, Put32(frames));
      WriteAt(OFF_STRH_LEN, Put32(frames));
      WriteAt(OFF_MOVISZ, Put32(movi));
      WriteAt(OFF_FLAGS, Put32(FLAG_INTERLEAVED + FLAG_HASINDEX));
      PatchHeaderAt(f, finalLen, frames, movi);
    }

    /** Ends a copy of a header and a movi body: the index, then the header fields. */
    method Close(ghost head: seq<byte>, ghost body: seq<byte>, chunks: seq<Chunk>) returns (closed: bool)
      requires |head| == HDR_SIZE && data == head + body
      modifies this`data
      ensures closed == IndexFits(chunks)
      ensures closed ==> data == Closed(head, body, chunks)
    {
      hide PatchHeader, Index, IndexFits;
      var idx := BuildIdx1(chunks);
      if idx.Err? {
        return false;
      }
      var end := |data|;
      WriteAt(end, idx.value);
      assert data == head + (body + idx.value);
      Patch(end + |idx.value|, |chunks|, end - MOVI_FCC);
      PatchHeaderTail(head, body + idx.value, end + |idx.value|, |chunks|, end - MOVI_FCC);
      return true;
    }
  }

  method Store(a: array<byte>, at: nat, b: seq<byte>)
    requires at + |b| <= a.Length
    modifies a
    ensures a[..at] == old(a[..at]) && a[at..at + |b|] == b && a[at + |b|..] == old(a[at + |b|..])
  {
    for i := 0 to |b|
      invariant a[..at] == old(a[..at]) && a[at..at + i] == b[..i] && a[at + |b|..] == old(a[at + |b|..])
    {
      a[at + i] := b[i];
      assert a[at..at + i + 1] == a[at..at + i] + [b[i]] == b[..i + 1];
    }
  }

  lemma Glue<T>(f: seq<T>, a: nat, b: nat, c: nat)
    requires a <= b <= c <= |f|
    ensures f[a..c] == f[a..b] + f[b..c]
  {
  }

  /** Fills the index buffer entry by entry; a field that does not fit 32 bits throws. */
  method BuildIdx1(chunks: seq<Chunk>) returns (r: Result<seq<byte>, ()>)
    ensures r == if IndexFits(chunks) then Ok(Index(chunks)) else Err(())
  {
    if 16 * |chunks| >= TWO_32 {
      return Err(());
    }
    var buf := new byte[8 + 16 * |chunks|](_ => 0);
    Store(buf, 0, IDX1 + Put32(16 * |chunks|));
    var done := FillEntries(buf, chunks);
    if !done {
      return Err(());
    }
    r := Ok(buf[..]);
    assert buf[..] == buf[..8] + buf[8..];
  }

  /** The loop over the entries, starting after the buffer's 8-byte chunk header. */
  method FillEntries(buf: array<byte>, chunks: seq<Chunk>) returns (done: bool)
    requires buf.Length == 8 + 16 * |chunks|
    modifies buf
    ensures done == forall c :: c in chunks ==> Since(c.off, MOVI_FCC) < TWO_32 && c.size < TWO_32
    ensures done ==> buf[..8] == old(buf[..8]) && buf[8..] == IndexBody(chunks)
  {
    var i, q := 0, 8;
    while i < |chunks|
      invariant i <= |chunks| && q == 8 + 16 * i
      invariant forall c :: c in chunks[..i] ==> Since(c.off, MOVI_FCC) < TWO_32 && c.size < TWO_32
      invariant buf[..8] == old(buf[..8]) && buf[8..q] == IndexBody(chunks[..i])
    {
      var c := chunks[i];
      if Since(c.off, MOVI_FCC) >= TWO_32 || c.size >= TWO_32 {
        return false;
      }
      ghost var before := buf[..q];
      Store(buf, q, IndexEntry(c));
      assert buf[8..q] == before[8..] && buf[..8] == before[..8];
      Glue(buf[..], 8, q, q + 16);
      assert chunks[..i + 1][..i] == chunks[..i] && chunks[..i + 1] == chunks[..i] + [c];
      i, q := i + 1, q + 16;
    }
    assert chunks[..i] == chunks;
    return true;
  }
}
