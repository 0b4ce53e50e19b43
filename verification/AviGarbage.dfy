/** What the old contents of a card can do to a recording that is cut short. */
module AviGarbage {
  import opened Bytes
  import opened AviFormat
  import opened AviIngest
  import opened AviWriter
  import opened AviTrace
  import opened AviCut
  import opened AviCrash

  /** Behind what was written the old bytes still show. */
  predicate Shows(x: seq<byte>, stale: seq<byte>, from: nat) {
    && |x| == (if from < |stale| then |stale| else from)
    && forall i :: from <= i < |stale| ==> x[i] == stale[i]
  }

  lemma ImageShows(hdr: seq<byte>, done: seq<Stored>, part: seq<byte>, stale: seq<byte>)
    requires |hdr| == HDR_SIZE
    ensures Shows(Image(hdr, done, part, stale), stale, End(done) + |part|)
  {
    hide Movi;
    var front := hdr + Movi(done) + part;
    var tail := Tail(stale, |front|);
    assert Image(hdr, done, part, stale) == front + tail;
    forall i | |front| <= i < |stale| ensures (front + tail)[i] == stale[i] {
      assert (front + tail)[i] == tail[i - |front|];
    }
  }

  /** A cut of a recording, as far as the bytes behind the completed frames go. */
  lemma CutShows(g: Geometry, stale: seq<byte>, rec: Recording, k: nat)
    requires g.Valid() && Sane(rec.ops) && k <= |FullTrace(g, rec)|
    requires End(Done(rec.ops)) + |FinalIndex(Done(rec.ops), rec.cap)| < TWO_32
    ensures var x, c := Apply(stale, FullTrace(g, rec)[..k]), CutOf(g, rec, k);
      && (k >= HDR_SIZE ==> Shows(x, stale, End(c.done) + |c.part|) && Holds(x, End(c.done), c.part))
      && (k < HDR_SIZE ==> Shows(x, stale, k) && c == Cutoff([], [], [], false))
  {
    hide Apply, FullTrace, Image, Movi, Header, Within, FinalIndex, CutOf, HeaderLike, Holds;
    var c := CutOf(g, rec, k);
    var hdr := AnyCut(g, stale, rec, k);
    if k >= HDR_SIZE {
      IsHeaderLike(g, hdr);
      ImageShows(hdr, c.done, c.part, stale);
      ImageHolds(hdr, c.done, c.part, stale);
    }
  }

  // ---- the promise broken ----

  /**
   * Any recording, cut when the tag of a frame's chunk is written and its size is not, over four zeros: the frame
   * is read as a dropout and the promise is lost.
   */
  lemma TornSizeBreaksPromise(g: Geometry, stale: seq<byte>, ops: seq<Op>, f: Stored)
    requires g.Valid() && Sane(ops) && Intact(f) && f.payload != [] && |stale| < TWO_32
    requires var at := End(Done(ops));
      at + 8 <= |stale| && forall i :: at + 4 <= i < at + 8 ==> stale[i] == 0
    requires End(Done(ops) + [f]) + 8 < TWO_32 && 16 * (|Done(ops)| + 2) < TWO_32
    ensures var rec, k := Recording(ops + [Frame(f)], false, false, 0), |Trace(g, ops)| + 4;
      && k <= |FullTrace(g, rec)|
      && var x, c := Apply(stale, FullTrace(g, rec)[..k]), CutOf(g, rec, k);
        && c == Cutoff(Done(ops), DC, [f], false) && Phantoms(x, End(c.done)) != []
        && Phantoms(x, End(c.done))[0] == Stored([], []) && !(Ingest(x).Ok? && AsPromised(g, Ingest(x).value.data, c))
  {
    hide Apply, Movi, Ingest, Faithful, Phantoms, StartsLike, AsPromised, ChunkBytes, FullTrace, CutOf, Holds, Done, Trace, FinalIndex;
    var rec, k := Recording(ops + [Frame(f)], false, false, 0), |Trace(g, ops)| + 4;
    TornCut(g, ops, f);
    TagFirst(f);
    HeaderFirst(g, ops);
    CutShows(g, stale, rec, k);
    var x, c := Apply(stale, FullTrace(g, rec)[..k]), CutOf(g, rec, k);
    TornSizeReadsAsDropout(x, c);
    PromiseKept(g, stale, rec, k);
  }

  lemma TornCut(g: Geometry, ops: seq<Op>, f: Stored)
    requires g.Valid() && Sane(ops) && Intact(f)
    ensures var rec, k := Recording(ops + [Frame(f)], false, false, 0), |Trace(g, ops)| + 4;
      && k <= |FullTrace(g, rec)| && CutOf(g, rec, k) == Cutoff(Done(ops), DC, [f], false)
      && Done(rec.ops) == Done(ops) + [f] && Sane(rec.ops) && |FinalIndex(Done(rec.ops), rec.cap)| == 8
  {
    hide Movi, ChunkBytes, Pokes, Trace, Intact, FinalIndex;
    var all := ops + [Frame(f)];
    TraceSnoc(g, ops, Frame(f));
    TagFirst(f);
    assert all[..|all| - 1] == ops && FullTrace(g, Recording(all, false, false, 0)) == Trace(g, all);
  }

  lemma TagFirst(f: Stored)
    ensures |ChunkBytes(f)| >= 8 && ChunkBytes(f)[..4] == DC
  {
    assert ChunkBytes(f) == DC + (Put32(|f.payload|) + f.payload + f.pad);
  }

  /** A four-byte JPEG over a thousand zeros, cut after 228 bytes. */
  lemma ZeroedCardBreaksPromise(g: Geometry)
    requires g.Valid()
    ensures var f, stale := Stored([0xFF, 0xD8, 0xFF, 0xD9], []), Zeros(1000);
      var rec := Recording([Frame(f)], false, false, 0);
      && Sane(rec.ops) && 228 <= |FullTrace(g, rec)|
      && var x, c := Apply(stale, FullTrace(g, rec)[..228]), CutOf(g, rec, 228);
        c == Cutoff([], DC, [f], false) && !(Ingest(x).Ok? && AsPromised(g, Ingest(x).value.data, c))
  {
    hide Apply, Ingest, AsPromised, Phantoms, Header, ChunkBytes, FullTrace, CutOf;
    var f, stale := Stored([0xFF, 0xD8, 0xFF, 0xD9], []), Zeros(1000);
    assert EndsEoi(f.payload) && Intact(f);
    assert [] + [f] == [f] && [] + [Frame(f)] == [Frame(f)];
    assert Done([]) == [] && End([]) == HDR_SIZE && |Trace(g, [])| == HDR_SIZE;
    MoviSnoc([], f);
    assert |ChunkBytes(f)| == Whole(4);
    TornSizeBreaksPromise(g, stale, [], f);
  }

  /** A cut inside the header of a new file leaves nothing to recover. */
  lemma HeaderCutBreaksPromise(g: Geometry, k: nat)
    requires g.Valid() && k < HDR_SIZE
    ensures var rec := Recording([], false, false, 0);
      && k <= |FullTrace(g, rec)|
      && var x, c := Apply([], FullTrace(g, rec)[..k]), CutOf(g, rec, k);
        |x| == k && !(Ingest(x).Ok? && AsPromised(g, Ingest(x).value.data, c))
  {
    hide Apply, Ingest, AsPromised, Header, Faithful;
    var rec := Recording([], false, false, 0);
    CutShows(g, [], rec, k);
    PromiseKept(g, [], rec, k);
  }

  // ---- the promise kept ----

  /**
   * Old contents that cannot be taken for a chunk: no byte ends an EOI marker, and no aligned word ends like one of
   * the four tags or is zero at its end, which would make a small size.
   */
  predicate Quiet(stale: seq<byte>) {
    forall p :: HDR_SIZE <= p < |stale| ==> stale[p] != 0xD9 && (p % 4 == 3 ==> EndsNoTag(stale[p]))
  }

  predicate EndsNoTag(b: byte) {
    b != 0 && b != DC[3] && b != IDX1[3] && b != LIST[3] && b != JUNK[3]
  }

  /** No tag is read in old contents that are quiet. */
  lemma NoTag(x: seq<byte>, stale: seq<byte>, from: nat, at: nat)
    requires Shows(x, stale, from) && Quiet(stale) && HDR_SIZE <= at && at % 4 == 0 && from <= at + 3 && at + 8 <= |x|
    ensures at + 3 < |stale| ==> !Tag(x, at, DC) && !Follower(x, at)
  {
    if at + 3 < |stale| {
      assert EndsNoTag(stale[at + 3]);
    }
  }

  /** Between two writes, or inside the index: the bytes behind the frames are no chunk. */
  lemma QuietBetween(x: seq<byte>, stale: seq<byte>, c: Cutoff, from: nat)
    requires c.flying == [] && End(c.done) % 4 == 0 && Quiet(stale)
    requires c.part == [] ==> from <= End(c.done) && Shows(x, stale, from)
    requires c.part != [] ==> c.part[0] == IDX1[0] && Holds(x, End(c.done), c.part)
    ensures Faithful(x, c)
  {
    hide Movi;
    var at := End(c.done);
    if at + 8 <= |x| {
      if c.part == [] {
        NoTag(x, stale, from, at);
      } else {
        assert x[at] == x[at..at + |c.part|][0];
      }
    }
  }

  /** Inside a frame's chunk: too little of it to be read, or a frame without its EOI. */
  lemma QuietInside(x: seq<byte>, stale: seq<byte>, c: Cutoff)
    requires c.flying != [] && Intact(c.flying[0]) && Holds(x, End(c.done), c.part) && |c.part| < |ChunkBytes(c.flying[0])|
    requires c.part == ChunkBytes(c.flying[0])[..|c.part|] && End(c.done) % 4 == 0
    requires Quiet(stale) && Shows(x, stale, End(c.done) + |c.part|)
    requires End(c.done) + Whole(|c.flying[0].payload|) + 8 <= |stale|
    ensures Faithful(x, c)
  {
    hide Movi, ChunkBytes, Get32, Holds;
    var at, j, n := End(c.done), |c.part|, |c.flying[0].payload|;
    if j < 4 {
      NoTag(x, stale, at + j, at);
    } else if j < 8 {
      assert EndsNoTag(stale[at + 7]);
      LargeSize(x, at);
    } else {
      NoTag(x, stale, at + j, at + Whole(n));
      if ChunkAt(x, at, MAX_FRAME) && j < 8 + n {
        SizeArrived(x, c);
        assert stale[at + 8 + n - 1] != 0xD9;
      }
      GarbageKeepsPromise(x, c);
    }
  }

  lemma LargeSize(x: seq<byte>, at: nat)
    requires at + 8 <= |x| && x[at + 7] != 0
    ensures Get32(x, at + 4) > MAX_FRAME
  {
  }

  lemma SizeArrived(x: seq<byte>, c: Cutoff)
    requires c.flying != [] && |c.flying[0].payload| < TWO_32 && Holds(x, End(c.done), c.part)
    requires 8 <= |c.part| <= |ChunkBytes(c.flying[0])| && c.part == ChunkBytes(c.flying[0])[..|c.part|]
    ensures Get32(x, End(c.done) + 4) == |c.flying[0].payload|
  {
    hide ChunkBytes, Movi, Get32;
    var at, b := End(c.done), ChunkBytes(c.flying[0]);
    ChunkParts(c.flying[0]);
    Sub(x, at, at + |c.part|, 4, 8);
    Sub(b, 0, |c.part|, 4, 8);
    assert b[0..|c.part|] == c.part;
    GetInside(x, at + 4, b[4..8]);
    GetInside(b, 4, b[4..8]);
  }

  /**
   * On a card whose old contents are quiet, and in a file that was reserved larger than the recording, every cut
   * behind the header keeps the promise, and a cut inside the header keeps it when the file starts like the
   * recording all the same.
   */
  lemma QuietCardKeepsPromise(g: Geometry, stale: seq<byte>, rec: Recording, k: nat)
    requires g.Valid() && Sane(rec.ops) && k <= |FullTrace(g, rec)| && Quiet(stale)
    requires End(Done(rec.ops)) + |FinalIndex(Done(rec.ops), rec.cap)| < TWO_32 && 16 * (|Done(rec.ops)| + 1) < TWO_32
    requires End(Done(rec.ops)) + 8 <= |stale| < TWO_32
    ensures var x, c := Apply(stale, FullTrace(g, rec)[..k]), CutOf(g, rec, k);
      && (k >= HDR_SIZE ==> StartsLike(g, x))
      && (Ingest(x).Ok? && AsPromised(g, Ingest(x).value.data, c) <==> StartsLike(g, x))
  {
    hide Apply, FullTrace, Ingest, AsPromised, StartsLike, Faithful, Movi, FinalIndex, CutOf, Holds, Intact, ChunkBytes;
    var x, c := Apply(stale, FullTrace(g, rec)[..k]), CutOf(g, rec, k);
    CutShows(g, stale, rec, k);
    CutShape(g, rec, k);
    if c.flying != [] {
      QuietInside(x, stale, c);
    } else {
      QuietBetween(x, stale, c, if k < HDR_SIZE then k else End(c.done) + |c.part|);
    }
    PromiseKept(g, stale, rec, k);
  }

  /** What a cutoff of any recording can be, for the old bytes behind it. */
  lemma CutShape(g: Geometry, rec: Recording, k: nat)
    requires g.Valid() && Sane(rec.ops)
    ensures var c := CutOf(g, rec, k);
      && End(c.done) % 4 == 0 && (c.flying == [] && c.part != [] ==> c.part[0] == IDX1[0])
      && End(c.done) + |c.part| <= End(Done(rec.ops)) + |FinalIndex(Done(rec.ops), rec.cap)|
      && (c.flying != [] ==> var f := c.flying[0];
            && Intact(f) && |c.part| < |ChunkBytes(f)| && c.part == ChunkBytes(f)[..|c.part|]
            && End(c.done) + Whole(|f.payload|) <= End(Done(rec.ops)))
  {
    hide Trace, FinalIndex, Movi, ChunkBytes;
    var c := CutOf(g, rec, k);
    DoneIntact(rec.ops);
    ProgressSpec(g, rec.ops, k);
    MoviAligned(c.done);
    EndMonotone(c.done, Done(rec.ops));
    IndexTag(Done(rec.ops), rec.cap);
    if c.flying != [] {
      MoviSnoc(c.done, c.flying[0]);
      EndMonotone(c.done + [c.flying[0]], Done(rec.ops));
    }
  }

  lemma IndexTag(done: seq<Stored>, cap: nat)
    ensures FinalIndex(done, cap)[0] == IDX1[0]
  {
    hide IndexBody, ChunksOf, Put32;
  }

  // ---- exactly which old bytes matter ----

  /** What a cut leaves behind the completed frames: the part of the write in flight, and old bytes. */
  function Behind(stale: seq<byte>, c: Cutoff): seq<byte> {
    c.part + Tail(stale, End(c.done) + |c.part|)
  }

  /** Read from their start, these bytes are no frame, or one that is dropped, or the frame in flight and then so. */
  predicate Harmless(y: seq<byte>, flying: seq<Stored>) {
    || Nothing(y, 0)
    || (flying != [] && ChunkAt(y, 0, MAX_FRAME) && FrameAt(y, 0).payload == flying[0].payload
        && Nothing(y, Whole(Get32(y, 4))))
  }

  lemma BehindIsTail(g: Geometry, stale: seq<byte>, rec: Recording, k: nat)
    requires g.Valid() && Sane(rec.ops) && k <= |FullTrace(g, rec)|
    requires End(Done(rec.ops)) + |FinalIndex(Done(rec.ops), rec.cap)| < TWO_32
    ensures var x, c := Apply(stale, FullTrace(g, rec)[..k]), CutOf(g, rec, k);
      && (k >= HDR_SIZE ==> |x| >= End(c.done))
      && (|x| >= End(c.done) ==> x[End(c.done)..] == Behind(stale, c))
  {
    hide Apply, FullTrace, Movi, Header, Within, FinalIndex, CutOf, HeaderLike, Done;
    var x, c := Apply(stale, FullTrace(g, rec)[..k]), CutOf(g, rec, k);
    var hdr := AnyCut(g, stale, rec, k);
    assert End([]) == HDR_SIZE by {
      NoFrames();
    }
    if k >= HDR_SIZE {
      IsHeaderLike(g, hdr);
      assert x == (hdr + Movi(c.done)) + Behind(stale, c);
    }
  }

  lemma NoFrames()
    ensures Movi([]) == []
  {
  }

  /** Reading a file from `at` on is reading its tail. */
  lemma ReadsTail(x: seq<byte>, at: nat, y: seq<byte>, p: nat)
    requires at <= |x| && y == x[at..]
    ensures ChunkAt(x, at + p, MAX_FRAME) <==> ChunkAt(y, p, MAX_FRAME)
    ensures CutAt(x, at + p) <==> CutAt(y, p)
    ensures p + 8 <= |y| ==> Get32(x, at + p + 4) == Get32(y, p + 4) && (Tag(x, at + p, DC) <==> Tag(y, p, DC))
    ensures ChunkAt(y, p, MAX_FRAME) ==> FrameAt(x, at + p).payload == FrameAt(y, p).payload
  {
    if ChunkAt(y, p, MAX_FRAME) {
      Sub(x, at, |x|, p + 8, p + 8 + Get32(y, p + 4));
    }
  }

  lemma NothingInTail(x: seq<byte>, at: nat, y: seq<byte>, p: nat)
    requires at <= |x| && y == x[at..]
    ensures Nothing(x, at + p) <==> Nothing(y, p)
  {
    hide ChunkAt, CutAt, Tag, Get32, EndsEoi;
    ReadsTail(x, at, y, p);
    if ChunkAt(y, p, MAX_FRAME) {
      ChunkHasSize(y, p);
      ReadsTail(x, at, y, p + Whole(Get32(y, p + 4)));
      assert at + p + Whole(Get32(x, at + p + 4)) == at + (p + Whole(Get32(y, p + 4)));
    }
  }

  lemma ChunkHasSize(y: seq<byte>, p: nat)
    requires ChunkAt(y, p, MAX_FRAME)
    ensures p + 8 <= |y| && |FrameAt(y, p).payload| == Get32(y, p + 4)
  {
  }

  /** The promise in terms of the cut and the old contents: nothing but the bytes behind the completed frames decides. */
  lemma PromiseByOldBytes(g: Geometry, stale: seq<byte>, rec: Recording, k: nat)
    requires g.Valid() && Sane(rec.ops) && k <= |FullTrace(g, rec)|
    requires End(Done(rec.ops)) + |FinalIndex(Done(rec.ops), rec.cap)| < TWO_32 && 16 * (|Done(rec.ops)| + 1) < TWO_32
    requires |Apply(stale, FullTrace(g, rec)[..k])| < TWO_32
    ensures var x, c := Apply(stale, FullTrace(g, rec)[..k]), CutOf(g, rec, k);
      && (k >= HDR_SIZE ==> StartsLike(g, x))
      && (Ingest(x).Ok? && AsPromised(g, Ingest(x).value.data, c) <==> StartsLike(g, x) && Harmless(Behind(stale, c), c.flying))
  {
    hide Apply, FullTrace, Ingest, AsPromised, Movi, FinalIndex, CutOf, ChunkAt, Get32, Header, Done, Nothing, Behind;
    var x, c := Apply(stale, FullTrace(g, rec)[..k]), CutOf(g, rec, k);
    BehindIsTail(g, stale, rec, k);
    PromiseKept(g, stale, rec, k);
    if StartsLike(g, x) {
      CutInside(g, stale, rec, k);
      FaithfulIsHarmless(x, c, Behind(stale, c));
    }
  }

  lemma CutInside(g: Geometry, stale: seq<byte>, rec: Recording, k: nat)
    requires g.Valid() && Sane(rec.ops) && k <= |FullTrace(g, rec)|
    requires End(Done(rec.ops)) + |FinalIndex(Done(rec.ops), rec.cap)| < TWO_32
    requires StartsLike(g, Apply(stale, FullTrace(g, rec)[..k]))
    ensures |Apply(stale, FullTrace(g, rec)[..k])| >= End(CutOf(g, rec, k).done)
  {
    hide Apply, FullTrace, FinalIndex, CutOf, Done, Header;
    BehindIsTail(g, stale, rec, k);
    CutShows(g, stale, rec, k);
  }

  lemma FaithfulIsHarmless(x: seq<byte>, c: Cutoff, y: seq<byte>)
    requires End(c.done) <= |x| && y == x[End(c.done)..]
    ensures Faithful(x, c) <==> Harmless(y, c.flying)
  {
    hide Nothing, ChunkAt, Get32, Movi, CutAt, Tag;
    var at := End(c.done);
    NothingInTail(x, at, y, 0);
    ReadsTail(x, at, y, 0);
    if ChunkAt(y, 0, MAX_FRAME) {
      ChunkHasSize(y, 0);
      NothingInTail(x, at, y, Whole(Get32(y, 4)));
    }
  }

  /**
   * Enough for that, looking only where something is read: behind `j` bytes of a chunk's write, `y` has no tag where
   * the next chunk would begin, no size that a frame can have, or no EOI where the frame would end.
   */
  predicate QuietWhereRead(y: seq<byte>, j: nat, flying: seq<Stored>) {
    if flying == [] || j < 4 then |y| >= 8 ==> !Tag(y, 0, DC)
    else if j < 8 then |y| >= 8 ==> Get32(y, 4) > MAX_FRAME
    else
      var end := 8 + |flying[0].payload|;
      var next := Whole(|flying[0].payload|);
      && (next + 8 <= |y| ==> !Tag(y, next, DC))
      && (j < end && next <= |y| ==> CutAt(y, next) && !EndsEoi(y[8..end]))
  }

  lemma QuietIsHarmless(y: seq<byte>, c: Cutoff)
    requires c.flying != [] ==> Intact(c.flying[0]) && |c.part| < |ChunkBytes(c.flying[0])| && c.part == ChunkBytes(c.flying[0])[..|c.part|]
    requires c.part <= y && QuietWhereRead(y, |c.part|, c.flying)
    ensures Harmless(y, c.flying)
  {
    hide ChunkBytes, CutAt, Put32, Get32, Tag;
    if c.flying != [] && |c.part| >= 8 {
      var f, b, j := c.flying[0], ChunkBytes(c.flying[0]), |c.part|;
      ChunkParts(f);
      assert y[0..j] == b[0..j];
      Sub(y, 0, j, 4, 8);
      Sub(b, 0, j, 4, 8);
      GetInside(y, 4, b[4..8]);
      GetInside(b, 4, b[4..8]);
      if j >= 8 + |f.payload| {
        Sub(y, 0, j, 8, 8 + |f.payload|);
        Sub(b, 0, j, 8, 8 + |f.payload|);
      }
    }
  }

  /** Every cut behind the header keeps the promise when the old contents are quiet where they are read. */
  lemma QuietWhereReadKeepsPromise(g: Geometry, stale: seq<byte>, rec: Recording, k: nat)
    requires g.Valid() && Sane(rec.ops) && HDR_SIZE <= k <= |FullTrace(g, rec)|
    requires End(Done(rec.ops)) + |FinalIndex(Done(rec.ops), rec.cap)| < TWO_32 && 16 * (|Done(rec.ops)| + 1) < TWO_32
    requires |Apply(stale, FullTrace(g, rec)[..k])| < TWO_32
    requires var c := CutOf(g, rec, k); QuietWhereRead(Behind(stale, c), |c.part|, c.flying)
    ensures var x, c := Apply(stale, FullTrace(g, rec)[..k]), CutOf(g, rec, k);
      Ingest(x).Ok? && AsPromised(g, Ingest(x).value.data, c)
  {
    hide Apply, FullTrace, Ingest, AsPromised, Movi, FinalIndex, CutOf, Header, Done, Harmless, QuietWhereRead, Intact, ChunkBytes;
    CutShape(g, rec, k);
    PromiseByOldBytes(g, stale, rec, k);
    QuietIsHarmless(Behind(stale, CutOf(g, rec, k)), CutOf(g, rec, k));
  }

  /** An erased card is quiet. */
  lemma ErasedIsQuiet(stale: seq<byte>)
    requires forall i :: 0 <= i < |stale| ==> stale[i] == 0xFF
    ensures Quiet(stale)
  {
  }

  // ---- what a cut recording reports ----

  /** Behind held chunks the flag is that of a scan from there on. */
  lemma TruncatedBehind(x: seq<byte>, done: seq<Stored>)
    requires AllFit(done) && Holds(x, HDR_SIZE, Movi(done))
    ensures Scan(x, HDR_SIZE, MAX_FRAME).truncated == Scan(x, End(done), MAX_FRAME).truncated
  {
    hide Run, ChunkAt, CutAt, Movi, ChunksOf, Holds, Scan;
    var s := Scan(x, End(done), MAX_FRAME);
    MoviRun(x, done);
    ScanIsRun(x, End(done), MAX_FRAME);
    RunAppend(x, HDR_SIZE, ChunksOf(done), End(done), s.chunks, s.end, MAX_FRAME);
    RunIsScan(x, HDR_SIZE, ChunksOf(done) + s.chunks, s.end, MAX_FRAME);
  }

  /** With no frame in flight the scan is cut until the four bytes of the index's tag are there. */
  lemma CutBetween(x: seq<byte>, stale: seq<byte>, c: Cutoff)
    requires c.flying == [] && End(c.done) % 4 == 0 && Quiet(stale) && Shows(x, stale, End(c.done) + |c.part|)
    requires Holds(x, End(c.done), c.part) && End(c.done) + 8 <= |stale|
    requires c.part[..if |c.part| < 4 then |c.part| else 4] <= IDX1
    ensures Scan(x, End(c.done), MAX_FRAME).truncated <==> |c.part| < 4
  {
    hide Movi, Get32;
    var at, j := End(c.done), |c.part|;
    if j < 4 {
      NoTag(x, stale, at + j, at);
    } else {
      assert x[at..at + j] == c.part && x[at..at + j][..4] == x[at..at + 4];
      assert Follower(x, at);
    }
  }

  /** Inside a frame's chunk the scan is always cut. */
  lemma CutInsideChunk(x: seq<byte>, stale: seq<byte>, c: Cutoff)
    requires c.flying != [] && Intact(c.flying[0]) && Holds(x, End(c.done), c.part) && |c.part| < |ChunkBytes(c.flying[0])|
    requires c.part == ChunkBytes(c.flying[0])[..|c.part|] && End(c.done) % 4 == 0
    requires Quiet(stale) && Shows(x, stale, End(c.done) + |c.part|)
    requires End(c.done) + Whole(|c.flying[0].payload|) + 8 <= |stale|
    ensures Scan(x, End(c.done), MAX_FRAME).truncated
  {
    hide Movi, ChunkBytes, Get32, Holds;
    var at, j, n := End(c.done), |c.part|, |c.flying[0].payload|;
    if j < 4 {
      NoTag(x, stale, at + j, at);
    } else {
      PartIsChunk(x, c);
      if j < 8 {
        assert EndsNoTag(stale[at + 7]);
        LargeSize(x, at);
      } else {
        SizeArrived(x, c);
        NoTag(x, stale, at + j, at + Whole(n));
      }
    }
  }

  lemma PartIsChunk(x: seq<byte>, c: Cutoff)
    requires c.flying != [] && Holds(x, End(c.done), c.part) && 4 <= |c.part| <= |ChunkBytes(c.flying[0])|
    requires c.part == ChunkBytes(c.flying[0])[..|c.part|]
    ensures x[End(c.done)..End(c.done) + 4] == DC
  {
    hide Movi, ChunkBytes;
    TagFirst(c.flying[0]);
    Sub(x, End(c.done), End(c.done) + |c.part|, 0, 4);
    assert c.part[..4] == ChunkBytes(c.flying[0])[..4];
  }

  /** Between two chunks there is nothing in flight but the beginning of the index. */
  lemma IndexFirst(g: Geometry, rec: Recording, k: nat)
    requires g.Valid() && Sane(rec.ops)
    ensures var c := CutOf(g, rec, k);
      c.flying == [] ==> c.part[..if |c.part| < 4 then |c.part| else 4] <= IDX1
  {
    hide Trace, FinalIndex, Movi, ChunkBytes, Done, Progress;
    ProgressSpec(g, rec.ops, k);
    var i := FinalIndex(Done(rec.ops), rec.cap);
    var c := CutOf(g, rec, k);
    assert i[..4] == IDX1 by {
      IndexTagWhole(Done(rec.ops), rec.cap);
    }
    if c.part != [] && c.flying == [] {
      var m := if |c.part| < 4 then |c.part| else 4;
      assert c.part == i[..|c.part|] && c.part[..m] == i[..4][..m];
    }
  }

  lemma IndexTagWhole(done: seq<Stored>, cap: nat)
    ensures FinalIndex(done, cap)[..4] == IDX1
  {
    hide IndexBody, ChunksOf, Put32;
  }

  /**
   * The report on a recording cut behind its header. A file as long as the camera reserves is always called cut, and
   * so is every clip that loses a torn frame. Over quiet old contents any other file is called cut exactly until the
   * tag of its index is written.
   */
  lemma CutIsReported(g: Geometry, stale: seq<byte>, rec: Recording, k: nat)
    requires g.Valid() && Sane(rec.ops) && HDR_SIZE <= k <= |FullTrace(g, rec)|
    requires End(Done(rec.ops)) + |FinalIndex(Done(rec.ops), rec.cap)| < 0x8000_0000 && |stale| < 0x8000_0000
    ensures var x, c := Apply(stale, FullTrace(g, rec)[..k]), CutOf(g, rec, k);
      && Ingest(x).Ok? && var r := Ingest(x).value;
      && (|x| == 209_715_200 ==> r.health == CrashCut)
      && (r.droppedTornFrame ==> r.health == CrashCut)
      && (Quiet(stale) && End(Done(rec.ops)) + 8 <= |stale| ==>
           (r.health == CrashCut <==> |x| == 209_715_200 || c.flying != [] || |c.part| < 4))
  {
    hide Apply, FullTrace, Ingest, Movi, FinalIndex, CutOf, Holds, Intact, ChunkBytes, Scan, Kept, Header, Image, Within, HeaderLike, Tag, Quiet, Done;
    var x, c := Apply(stale, FullTrace(g, rec)[..k]), CutOf(g, rec, k);
    var hdr := AnyCut(g, stale, rec, k);
    IsHeaderLike(g, hdr);
    ImageHolds(hdr, c.done, c.part, stale);
    HeaderTags(g, x);
    CutShows(g, stale, rec, k);
    CutShape(g, rec, k);
    CutIntact(g, rec, k);
    IntactFits(c.done);
    EndMonotone(c.done, Done(rec.ops));
    TruncatedBehind(x, c.done);
    TagIsText(x, 0, RIFF, "RIFF");
    TagIsText(x, 8, AVI, "AVI ");
    IngestReports(x);
    KeptAre(x);
    if Quiet(stale) && End(Done(rec.ops)) + 8 <= |stale| {
      if c.flying != [] {
        CutInsideChunk(x, stale, c);
      } else {
        IndexFirst(g, rec, k);
        CutBetween(x, stale, c);
      }
    }
  }
}
