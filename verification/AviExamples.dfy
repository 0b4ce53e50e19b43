/** Small files on which the laws' conditions fail, so that none of the conditions is idle. */
module AviExamples {
  import opened Bytes
  import opened AviFormat
  import opened AviIngest
  import opened AviRepair
  import opened AviFrames
  import opened AviWriter
  import opened AviTrace
  import opened AviJoin
  import opened AviJoinLaws

  /** A header, and behind it a chunk of `n` bytes of which the file holds `rest`, pad and all. */
  function OneChunk(g: Geometry, n: nat, rest: seq<byte>): (f: seq<byte>)
    requires g.Valid()
    ensures |f| == HDR_SIZE + 8 + |rest|
  {
    Header(g, EMPTY) + (DC + Put32(n) + rest)
  }

  lemma OneChunkParts(g: Geometry, n: nat, rest: seq<byte>)
    requires g.Valid() && n < TWO_32
    ensures var f := OneChunk(g, n, rest);
      && f[..HDR_SIZE] == Header(g, EMPTY) && Tag(f, 0, RIFF) && Tag(f, 8, AVI)
      && Tag(f, HDR_SIZE, DC) && Get32(f, HDR_SIZE + 4) == n && f[HDR_SIZE + 8..] == rest
  {
    hide Header, Put32, Get32;
    var f, h := OneChunk(g, n, rest), Header(g, EMPTY);
    HeaderFields(g, EMPTY);
    assert f == h + DC + Put32(n) + rest;
    assert f[HDR_SIZE + 4..HDR_SIZE + 8] == Put32(n);
    GetInside(f, HDR_SIZE + 4, Put32(n));
    GetPut32(n);
    assert forall i :: 0 <= i < HDR_SIZE ==> f[i] == h[i];
  }

  // ---- a join that loses frames ----

  /** A one-byte frame whose pad is missing, and a dropout. */
  function RaggedPair(g: Geometry): seq<seq<byte>>
    requires g.Valid()
  {
    [OneChunk(g, 1, [7]), OneChunk(g, 0, [])]
  }

  lemma RaggedWalks(g: Geometry)
    requires g.Valid()
    ensures var a, b := OneChunk(g, 1, [7]), OneChunk(g, 0, []);
      && Ragged(a) && Walk(a) == Scanned([Chunk(HDR_SIZE, 1)], |a|, true)
      && !Ragged(b) && Walk(b) == Scanned([Chunk(HDR_SIZE, 0)], |b|, false)
  {
    hide Header, Put32, Get32, Tag, OneChunk;
    OneChunkParts(g, 1, [7]);
    OneChunkParts(g, 0, []);
    var b := OneChunk(g, 0, []);
    assert Scan(b, |b|, NO_LIMIT) == Scanned([], |b|, false);
    assert Scan(b, HDR_SIZE, NO_LIMIT) == Scanned([Chunk(HDR_SIZE, 0)], |b|, false);
  }

  /** Joining the pair goes through, the joined file does not play what the two files do, and joining it again changes it. */
  lemma RaggedSegmentLosesFrames(g: Geometry)
    requires g.Valid()
    ensures var fs := RaggedPair(g);
      && Clips(fs) && Join(fs).Ok? && !NoneRagged(fs)
      && var x := Join(fs).value; Payloads(x, Walk(x).chunks) != AllPayloads(fs) && Join([x]) != Join(fs)
  {
    hide Header, Walk, Ragged, Closed, Get32, Payloads, AllPayloads, OneChunk;
    var fs := RaggedPair(g);
    RaggedWalks(g);
    OneChunkParts(g, 1, [7]);
    OneChunkParts(g, 0, []);
    SameHeads(fs[0], fs[1]);
    SizesOfTwo(fs[0], fs[1]);
    assert FirstRagged(fs) == 0;
    assert !Joinable(fs);
    JoinIsHomomorphism(fs);
    assert [] + fs + [] == fs && [] + [Join(fs).value] + [] == [Join(fs).value];
    JoinIsAssociative([], fs, []);
  }

  lemma SizesOfTwo(a: seq<byte>, b: seq<byte>)
    requires |a| >= HDR_SIZE && |b| >= HDR_SIZE
    ensures |Bodies([a, b])| <= |a| + |b| && |Chunks([a, b])| == |Walk(a).chunks| + |Walk(b).chunks|
  {
    hide Walk, Moved;
    WalkBounds(a);
    WalkBounds(b);
    Snoc([], a);
    Snoc([a], b);
    assert [] + [a] == [a] && [a] + [b] == [a, b];
  }

  lemma SameHeads(a: seq<byte>, b: seq<byte>)
    requires |a| >= HDR_SIZE && |b| >= HDR_SIZE && a[..HDR_SIZE] == b[..HDR_SIZE]
    ensures FactsOf(a) == FactsOf(b)
  {
    assert forall i :: 0 <= i < HDR_SIZE ==> a[i] == a[..HDR_SIZE][i] == b[i];
  }

  // ---- a clip the two copies disagree on ----

  /** A frame of two bytes without an EOI, padded, and eight bytes that are no chunk. */
  function ShortTorn(g: Geometry): seq<byte>
    requires g.Valid()
  {
    OneChunk(g, 2, Zeros(12))
  }

  lemma ShortTornScan(g: Geometry)
    requires g.Valid()
    ensures var f, s := ShortTorn(g), Scanned([Chunk(HDR_SIZE, 2)], HDR_SIZE + 12, true);
      && Scan(f, HDR_SIZE, NO_LIMIT) == s && Scan(f, HDR_SIZE, MAX_FRAME) == s && Walk(f) == s
      && LastIsTorn(f, s, 2) && Tag(f, 0, RIFF) && Tag(f, 8, AVI)
  {
    hide Header, Put32, Get32;
    var f := ShortTorn(g);
    OneChunkParts(g, 2, Zeros(12));
    assert forall i :: HDR_SIZE + 8 <= i < |f| ==> f[i] == f[HDR_SIZE + 8..][i - HDR_SIZE - 8] == 0;
    assert !ChunkAt(f, HDR_SIZE + 12, NO_LIMIT) && !PadCut(f, HDR_SIZE + 12) && CutAt(f, HDR_SIZE + 12);
    assert Run(f, HDR_SIZE + 12, [], HDR_SIZE + 12, NO_LIMIT) && Run(f, HDR_SIZE + 12, [], HDR_SIZE + 12, MAX_FRAME);
    var cs := [Chunk(HDR_SIZE, 2)];
    assert cs[1..] == [];
    RunIsScan(f, HDR_SIZE, cs, HDR_SIZE + 12, NO_LIMIT);
    RunIsScan(f, HDR_SIZE, cs, HDR_SIZE + 12, MAX_FRAME);
  }

  /** Ingest drops the frame and repair keeps it. */
  lemma ShortTornFrameSplitsThem(g: Geometry)
    requires g.Valid()
    ensures var f := ShortTorn(g);
      && Ingest(f).Ok? && Repair(f).Ok? && Ingest(f).value.droppedTornFrame
      && Ingest(f).value.data != Repair(f).value
  {
    hide Header, Closed, Scan, Walk, Run, Tag, ChunkAt, OneChunk;
    ShortTornScan(g);
    IngestRefinesRepair(ShortTorn(g));
  }
}
