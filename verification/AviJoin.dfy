/**
 * Several clips made into one: the chunks are copied and their index entries recomputed, nothing is decoded.
 * A segment is a file of which the walk starts at 224 and the geometry sits at its fixed offsets.
 */
module AviJoin {
  import opened Wrappers
  import opened Bytes
  import opened AviFormat
  import opened AviOut
  import opened AviIngest
  import opened AviRepair
  import opened AviFrames
  import W = AviWriter

  const AVI_MAX_BYTES: nat := 0xFFFF_FFFF

  datatype JoinError = NothingToJoin | GeometryMismatch | TooLarge | BadIndex

  datatype Facts = Facts(width: nat, height: nat, rate: nat, scale: nat)

  predicate Clips(fs: seq<seq<byte>>) {
    forall i :: 0 <= i < |fs| ==> |fs[i]| >= HDR_SIZE
  }

  function FactsOf(f: seq<byte>): Facts
    requires |f| >= HDR_SIZE
  {
    Facts(Get32(f, 176), Get32(f, 180), Get32(f, 132), Get32(f, 128))
  }

  /** A recording's geometry and timebase are read back from its header. */
  lemma RecordedFacts(g: W.Geometry, p: W.Fields)
    requires g.Valid()
    ensures FactsOf(W.Header(g, p)) == Facts(g.w, g.h, g.rate, g.scale)
  {
    hide W.Header;
    W.StreamHeaderAt(g, p);
    W.FormatAt(g, p);
  }

  lemma WalkBounds(f: seq<byte>)
    requires |f| >= HDR_SIZE
    ensures HDR_SIZE <= Walk(f).end <= |f| && 8 * |Walk(f).chunks| <= Walk(f).end - HDR_SIZE
  {
    var s := Scan(f, HDR_SIZE, NO_LIMIT);
    ScanIsRun(f, HDR_SIZE, NO_LIMIT);
    RunBounds(f, HDR_SIZE, s.chunks, s.end, NO_LIMIT);
  }

  /** The movi bytes a segment contributes. */
  function Body(f: seq<byte>): seq<byte> {
    if |f| < HDR_SIZE then []
    else
      WalkBounds(f);
      f[HDR_SIZE..Walk(f).end]
  }

  function Bodies(fs: seq<seq<byte>>): (b: seq<byte>)
  {
    if fs == [] then [] else Bodies(fs[..|fs| - 1]) + Body(fs[|fs| - 1])
  }

  /** The segments' chunks, rebased to where their bodies land. */
  function Chunks(fs: seq<seq<byte>>): (cs: seq<Chunk>)
  {
    if fs == [] then [] else
      var init, last := fs[..|fs| - 1], fs[|fs| - 1];
      Chunks(init) + Moved(Walk(last).chunks, HDR_SIZE, HDR_SIZE + |Bodies(init)|)
  }

  predicate SameFacts(fs: seq<seq<byte>>)
    requires Clips(fs)
  {
    forall i :: 0 <= i < |fs| ==> FactsOf(fs[i]) == FactsOf(fs[0])
  }

  /** What a join writes. */
  function Join(fs: seq<seq<byte>>): Result<seq<byte>, JoinError>
    requires Clips(fs)
  {
    if fs == [] then Err(NothingToJoin)
    else if !SameFacts(fs) then Err(GeometryMismatch)
    else if HDR_SIZE + |Bodies(fs)| + 8 + 16 * |Chunks(fs)| > AVI_MAX_BYTES then Err(TooLarge)
    else Ok(Closed(fs[0][..HDR_SIZE], Bodies(fs), Chunks(fs)))
  }

  /** The segments agree in width, height, rate and scale, the 32-bit fields at 176, 180, 132 and 128. */
  ghost predicate Agree(f: seq<byte>, h: seq<byte>)
    requires |f| >= HDR_SIZE && |h| >= HDR_SIZE
  {
    Get32(f, 176) == Get32(h, 176) && Get32(f, 180) == Get32(h, 180) && Get32(f, 128) == Get32(h, 128) && Get32(f, 132) == Get32(h, 132)
  }

  /** Each refusal of a join and its condition; otherwise the file has the size that was compared with 2^32 - 1. */
  lemma JoinRefuses(fs: seq<seq<byte>>)
    requires Clips(fs)
    ensures Join(fs) == Err(NothingToJoin) <==> fs == []
    ensures Join(fs) == Err(GeometryMismatch) <==> exists i :: 0 <= i < |fs| && !Agree(fs[i], fs[0])
    ensures var size := 224 + |Bodies(fs)| + 8 + 16 * |Chunks(fs)|;
      && (Join(fs) == Err(TooLarge) <==> fs != [] && (forall i :: 0 <= i < |fs| ==> Agree(fs[i], fs[0])) && size >= TWO_32)
      && (Join(fs).Ok? ==> |Join(fs).value| == size < TWO_32)
  {
    hide Bodies, Chunks, Closed, Get32;
    assert forall i :: 0 <= i < |fs| ==> (Agree(fs[i], fs[0]) <==> FactsOf(fs[i]) == FactsOf(fs[0]));
  }

  /** A join is the first segment's header with new counts and sizes, then the bodies, then the index. */
  lemma JoinWrites(fs: seq<seq<byte>>)
    requires Clips(fs) && Join(fs).Ok?
    ensures IsClip(Join(fs).value, fs[0][..224], Bodies(fs), |Chunks(fs)|)
  {
    hide Bodies, Chunks, Closed, IsClip, FactsOf;
    ClosedIsClip(fs[0][..HDR_SIZE], Bodies(fs), Chunks(fs));
  }

  // ---- the writer ----

  method ParseAll(fs: seq<seq<byte>>) returns (parsed: seq<Scanned>)
    ensures |parsed| == |fs| && forall i :: 0 <= i < |fs| ==> parsed[i] == Walk(fs[i])
  {
    hide Walk;
    parsed := [];
    for i := 0 to |fs|
      invariant |parsed| == i && forall j :: 0 <= j < i ==> parsed[j] == Walk(fs[j])
    {
      var w := WalkMovi(fs[i]);
      parsed := parsed + [w];
    }
  }

  /** The sizes the guard looks at, summed before anything is written. */
  method Project(fs: seq<seq<byte>>, parsed: seq<Scanned>) returns (bodyBytes: nat, totalFrames: nat)
    requires Clips(fs) && |parsed| == |fs| && forall i :: 0 <= i < |fs| ==> parsed[i] == Walk(fs[i])
    ensures bodyBytes == |Bodies(fs)| && totalFrames == |Chunks(fs)|
  {
    hide Walk;
    bodyBytes, totalFrames := 0, 0;
    for i := 0 to |fs|
      invariant bodyBytes == |Bodies(fs[..i])| && totalFrames == |Chunks(fs[..i])|
    {
      assert fs[..i + 1][..i] == fs[..i];
      WalkBounds(fs[i]);
      bodyBytes, totalFrames := bodyBytes + (parsed[i].end - HDR_SIZE), totalFrames + |parsed[i].chunks|;
    }
    assert fs[..|fs|] == fs;
  }

  method Rebase(cs: seq<Chunk>, outPos: nat) returns (r: seq<Chunk>)
    ensures r == Moved(cs, HDR_SIZE, outPos)
  {
    r := [];
    for i := 0 to |cs|
      invariant |r| == i && forall j :: 0 <= j < i ==> r[j] == Moved(cs, HDR_SIZE, outPos)[j]
    {
      r := r + [Chunk(outPos + Since(cs[i].off, HDR_SIZE), cs[i].size)];
    }
  }

  method CheckFacts(fs: seq<seq<byte>>) returns (same: bool)
    requires Clips(fs) && fs != []
    ensures same == SameFacts(fs)
  {
    hide FactsOf;
    for i := 1 to |fs|
      invariant forall j :: 0 <= j < i ==> FactsOf(fs[j]) == FactsOf(fs[0])
    {
      if FactsOf(fs[i]) != FactsOf(fs[0]) {
        return false;
      }
    }
    return true;
  }

  method ConcatTo(fs: seq<seq<byte>>) returns (r: Result<seq<byte>, JoinError>)
    requires Clips(fs)
    ensures r == Join(fs)
  {
    hide Closed, Walk, FactsOf, Bodies, Chunks, Body, IndexFits, SameFacts;
    if fs == [] {
      return Err(NothingToJoin);
    }
    var parsed := ParseAll(fs);
    var same := CheckFacts(fs);
    if !same {
      return Err(GeometryMismatch);
    }
    var bodyBytes, totalFrames := Project(fs, parsed);
    if HDR_SIZE + bodyBytes + 8 + totalFrames * 16 > AVI_MAX_BYTES {
      return Err(TooLarge);
    }
    var dst := new OutFile();
    var copied := CopyRange(fs[0], dst, 0, HDR_SIZE);
    var chunks := CopyBodies(fs, parsed, dst);
    GuardFits(fs);
    var closed := dst.Close(fs[0][..HDR_SIZE], Bodies(fs), chunks);
    return if closed then Ok(dst.data) else Err(BadIndex);
  }

  method CopyBodies(fs: seq<seq<byte>>, parsed: seq<Scanned>, dst: OutFile) returns (chunks: seq<Chunk>)
    requires Clips(fs) && |parsed| == |fs| && forall i :: 0 <= i < |fs| ==> parsed[i] == Walk(fs[i])
    requires dst.pos == |dst.data| == HDR_SIZE
    modifies dst
    ensures chunks == Chunks(fs) && dst.data == old(dst.data) + Bodies(fs)
  {
    hide Walk;
    var outPos := HDR_SIZE;
    chunks := [];
    for i := 0 to |fs|
      invariant dst.pos == |dst.data| && dst.data == old(dst.data) + Bodies(fs[..i])
      invariant chunks == Chunks(fs[..i]) && outPos == HDR_SIZE + |Bodies(fs[..i])|
    {
      assert fs[..i + 1][..i] == fs[..i];
      WalkBounds(fs[i]);
      var rebased := Rebase(parsed[i].chunks, outPos);
      chunks := chunks + rebased;
      var n := CopyRange(fs[i], dst, HDR_SIZE, parsed[i].end);
      outPos := outPos + n;
    }
    assert fs[..|fs|] == fs;
  }

  // ---- what the join holds ----

  /** The chunks of a join lie inside its body. */
  lemma {:induction false} ChunksInside(fs: seq<seq<byte>>, i: nat)
    requires Clips(fs) && i < |Chunks(fs)|
    ensures var c := Chunks(fs)[i]; HDR_SIZE <= c.off && c.off + 8 + c.size <= HDR_SIZE + |Bodies(fs)|
    decreases |fs|
  {
    hide Walk;
    var init, last := fs[..|fs| - 1], fs[|fs| - 1];
    if i < |Chunks(init)| {
      ChunksInside(init, i);
    } else {
      WalkChunks(last, i - |Chunks(init)|);
    }
  }

  /** Once the size guard has passed, every field of the join fits its 32 bits. */
  lemma GuardFits(fs: seq<seq<byte>>)
    requires Clips(fs) && HDR_SIZE + |Bodies(fs)| + 8 + 16 * |Chunks(fs)| <= AVI_MAX_BYTES
    ensures IndexFits(Chunks(fs)) && 4 + |Bodies(fs)| < TWO_32
  {
    var cs := Chunks(fs);
    forall c | c in cs ensures Since(c.off, MOVI_FCC) < TWO_32 && c.size < TWO_32 {
      var i :| 0 <= i < |cs| && cs[i] == c;
      ChunksInside(fs, i);
    }
  }

  lemma Snoc(xs: seq<seq<byte>>, f: seq<byte>)
    ensures Bodies(xs + [f]) == Bodies(xs) + Body(f)
    ensures Chunks(xs + [f]) == Chunks(xs) + Moved(Walk(f).chunks, HDR_SIZE, HDR_SIZE + |Bodies(xs)|)
  {
    assert (xs + [f])[..|xs|] == xs;
  }

  lemma {:induction false} BodiesAppend(xs: seq<seq<byte>>, ys: seq<seq<byte>>)
    ensures Bodies(xs + ys) == Bodies(xs) + Bodies(ys)
    decreases |ys|
  {
    hide Body, Walk;
    if ys == [] {
      assert xs + ys == xs;
    } else {
      var init := ys[..|ys| - 1];
      BodiesAppend(xs, init);
      assert (xs + ys)[..|xs + ys| - 1] == xs + init;
    }
  }

  lemma MovedAppend(xs: seq<Chunk>, bs: seq<Chunk>, from: nat, to: nat)
    ensures Moved(xs + bs, from, to) == Moved(xs, from, to) + Moved(bs, from, to)
  {
  }

  lemma MovedTwice(cs: seq<Chunk>, a: nat, b: nat)
    ensures Moved(Moved(cs, HDR_SIZE, HDR_SIZE + b), HDR_SIZE, HDR_SIZE + a) == Moved(cs, HDR_SIZE, HDR_SIZE + a + b)
  {
  }

  lemma {:induction false} ChunksAppend(xs: seq<seq<byte>>, ys: seq<seq<byte>>)
    ensures Chunks(xs + ys) == Chunks(xs) + Moved(Chunks(ys), HDR_SIZE, HDR_SIZE + |Bodies(xs)|)
    decreases |ys|
  {
    hide Walk, Moved, Body;
    var a := |Bodies(xs)|;
    if ys == [] {
      assert xs + ys == xs;
      assert |Moved([], HDR_SIZE, HDR_SIZE + a)| == 0;
    } else {
      var init, last := ys[..|ys| - 1], ys[|ys| - 1];
      var tail := Moved(Walk(last).chunks, HDR_SIZE, HDR_SIZE + |Bodies(init)|);
      ChunksAppend(xs, init);
      BodiesAppend(xs, init);
      assert (xs + ys)[..|xs + ys| - 1] == xs + init;
      MovedAppend(Chunks(init), tail, HDR_SIZE, HDR_SIZE + a);
      MovedTwice(Walk(last).chunks, a, |Bodies(init)|);
    }
  }
}
