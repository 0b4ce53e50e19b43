/**
 * The promise behind the recorder: cut the power at any byte, and ingest gives back what closing would have
 * written for the completed frames, or for those and the frame in flight.
 */
module AviCrash {
  import opened Wrappers
  import opened Bytes
  import opened AviFormat
  import opened AviOut
  import opened AviIngest
  import opened AviRepair
  import opened AviFrames
  import opened AviWriter
  import opened AviTrace
  import opened AviCut

  /** A frame the recorder stores: a dropout or a JPEG with its EOI marker, no larger than a bitstream slot. */
  predicate Intact(c: Stored) {
    c.Padded() && |c.payload| <= MAX_FRAME && (c.payload == [] || EndsEoi(c.payload))
  }

  predicate Sane(ops: seq<Op>) {
    forall op :: op in ops && op.Frame? ==> Intact(op.c)
  }

  predicate AllIntact(cs: seq<Stored>) {
    forall i :: 0 <= i < |cs| ==> Intact(cs[i])
  }

  /** What closing a clip of these frames leaves on the card, with an index of all of them. */
  function Final(g: Geometry, cs: seq<Stored>): seq<byte>
    requires g.Valid()
  {
    Closed(Header(g, EMPTY), Movi(cs), ChunksOf(cs))
  }

  // ---- the cut, closing included ----

  /** The file after any cut, and the header's bounds once the header is there. */
  lemma AnyCut(g: Geometry, stale: seq<byte>, rec: Recording, k: nat) returns (hdr: seq<byte>)
    requires g.Valid() && Sane(rec.ops) && k <= |FullTrace(g, rec)|
    requires End(Done(rec.ops)) + |FinalIndex(Done(rec.ops), rec.cap)| < TWO_32
    ensures var c, x := CutOf(g, rec, k), Apply(stale, FullTrace(g, rec)[..k]);
      && (k < HDR_SIZE ==> x == Begun(g, stale, k) && c == Cutoff([], [], [], false))
      && (k >= HDR_SIZE ==>
           x == Image(hdr, c.done, c.part, stale) && HeaderLike(g, hdr) && Within(hdr, CutBounds(c)))
  {
    hide Pokes, Movi, Image, HeaderLike, Within, FinishPokes, Apply, Trace, FinalIndex, Done, Begun;
    var t, n := Trace(g, rec.ops), |Trace(g, rec.ops)|;
    HeaderFirst(g, rec.ops);
    if k <= n {
      assert FullTrace(g, rec)[..k] == t[..k];
      RunningIsNotIndexed(g, rec.ops, k);
      hdr := RunningCut(g, stale, rec.ops, k);
    } else {
      hdr := RunningCut(g, stale, rec.ops, n);
      ProgressFull(g, rec.ops);
      assert t[..n] == t;
      var done := Done(rec.ops);
      var f := FinishPokes(done, rec.indexed, rec.cap);
      assert FullTrace(g, rec)[..k] == t + f[..k - n];
      ApplyAppend(stale, t, f[..k - n]);
      hdr := ClosingCut(g, stale, hdr, done, rec.indexed, rec.cap, k - n);
    }
  }

  lemma {:induction false} RunningIsNotIndexed(g: Geometry, ops: seq<Op>, k: nat)
    requires g.Valid()
    ensures !Progress(g, ops, k).indexed
    decreases |ops|
  {
    hide Trace, ChunkBytes;
    if ops != [] {
      RunningIsNotIndexed(g, ops[..|ops| - 1], k);
    }
  }

  lemma ClosingCut(g: Geometry, stale: seq<byte>, hdr: seq<byte>, done: seq<Stored>, indexed: bool, cap: nat, j: nat)
    returns (x: seq<byte>)
    requires g.Valid() && HeaderLike(g, hdr) && Within(hdr, Bounds(done))
    requires End(done) + |FinalIndex(done, cap)| < TWO_32 && j <= |FinishPokes(done, indexed, cap)|
    ensures var i := FinalIndex(done, cap);
      var c := if indexed then Cutoff(done, i[..if j < |i| then j else |i|], [], j >= |i|) else Cutoff(done, [], [], false);
      Apply(Image(hdr, done, [], stale), FinishPokes(done, indexed, cap)[..j]) == Image(x, done, c.part, stale)
      && HeaderLike(g, x) && Within(x, CutBounds(c))
  {
    hide Pokes, Movi, Image, PatchPokes, RunningPokes, Apply, Get32, FinalIndex;
    var i, img := FinalIndex(done, cap), Image(hdr, done, [], stale);
    MoviLength(done);
    NoPatches();
    if !indexed {
      var riff := HDR_SIZE - 8 + |Movi(done)|;
      RunningArePatches([], done, riff);
      assert [] + RunningPatches(done, riff) == RunningPatches(done, riff);
      assert PatchPokes([]) + RunningPokes(done, riff) == RunningPokes(done, riff);
      x := PatchImage(g, hdr, done, [], stale, RunningPatches(done, riff), j, Bounds(done));
    } else if j < |i| {
      PokesTake(End(done), i, j);
      assert FinishPokes(done, indexed, cap)[..j] == Pokes(End(done), i)[..j];
      AppendImage(hdr, done, i[..j], stale);
      x := hdr;
    } else {
      var ps := ClosingPatches(done, |i|);
      FinishParts(done, cap);
      assert FinishPokes(done, indexed, cap)[..j] == Pokes(End(done), i) + PatchPokes(ps)[..j - |i|];
      AppendImage(hdr, done, i, stale);
      assert i[..|i|] == i;
      ApplyAppend(img, Pokes(End(done), i), PatchPokes(ps)[..j - |i|]);
      x := PatchImage(g, hdr, done, i, stale, ps, j - |i|, CutBounds(Cutoff(done, i, [], true)));
    }
  }

  function ClosingPatches(done: seq<Stored>, idxLen: nat): seq<Patch> {
    [Patch(OFF_FLAGS, 0x110)] + RunningPatches(done, HDR_SIZE - 8 + |Movi(done)| + idxLen)
  }

  /** Closing is the index and then patches, the flag first. */
  lemma FinishParts(done: seq<Stored>, cap: nat)
    ensures FinishPokes(done, true, cap) ==
      Pokes(End(done), FinalIndex(done, cap)) + PatchPokes(ClosingPatches(done, |FinalIndex(done, cap)|))
  {
    hide Pokes, Movi, PatchPokes, RunningPokes, FinalIndex, Put32;
    var n := |FinalIndex(done, cap)|;
    var flag := Patch(OFF_FLAGS, 0x110);
    NoPatches();
    PatchSnoc([], flag);
    assert [] + [flag] == [flag];
    assert PatchPokes([flag]) == Pokes(OFF_FLAGS, Put32(0x110));
    RunningArePatches([flag], done, HDR_SIZE - 8 + |Movi(done)| + n);
    Assoc(Pokes(End(done), FinalIndex(done, cap)), Pokes(OFF_FLAGS, Put32(0x110)),
          RunningPokes(done, HDR_SIZE - 8 + |Movi(done)| + n));
  }

  // ---- what ingest makes of such a file ----

  /** A stored chunk reads back as a chunk of its size. */
  lemma ChunkHeld(x: seq<byte>, at: nat, c: Stored)
    requires c.Padded() && |c.payload| <= MAX_FRAME && Holds(x, at, ChunkBytes(c))
    ensures ChunkAt(x, at, MAX_FRAME) && Get32(x, at + 4) == |c.payload|
    ensures Payload(x, Chunk(at, |c.payload|)) == c.payload
  {
    hide Put32, Get32;
    var n := |c.payload|;
    HoldsParts(x, at, ChunkHead(n) + c.payload, c.pad);
    HoldsParts(x, at, ChunkHead(n), c.payload);
    HoldsParts(x, at, DC, Put32(n));
    GetInside(x, at + 4, Put32(n));
    GetPut32(n);
    assert x[at] == x[at..at + 4][0] && x[at + 1] == x[at..at + 4][1] && x[at + 2] == x[at..at + 4][2] && x[at + 3] == x[at..at + 4][3];
  }

  /** Frames that a walk can read back. */
  predicate AllFit(cs: seq<Stored>) {
    forall i :: 0 <= i < |cs| ==> cs[i].Padded() && |cs[i].payload| <= MAX_FRAME
  }

  /** The last frame gives the torn-frame check nothing to drop. */
  predicate EndsWhole(cs: seq<Stored>) {
    cs != [] ==> |cs[|cs| - 1].payload| < 2 || EndsEoi(cs[|cs| - 1].payload)
  }

  lemma {:induction false} MoviRun(x: seq<byte>, cs: seq<Stored>)
    requires AllFit(cs) && Holds(x, HDR_SIZE, Movi(cs))
    ensures Run(x, HDR_SIZE, ChunksOf(cs), End(cs), MAX_FRAME)
    decreases |cs|
  {
    hide Run, ChunkBytes, Holds, ChunkAt;
    if cs == [] {
      EmptyRun(x);
    } else {
      var init, last := cs[..|cs| - 1], cs[|cs| - 1];
      HoldsParts(x, HDR_SIZE, Movi(init), ChunkBytes(last));
      MoviRun(x, init);
      ChunkHeld(x, End(init), last);
      RunSnoc(x, HDR_SIZE, ChunksOf(init), End(init), MAX_FRAME);
    }
  }

  lemma EmptyRun(x: seq<byte>)
    ensures Run(x, HDR_SIZE, [], HDR_SIZE, MAX_FRAME)
  {
  }

  lemma LastNotTorn(x: seq<byte>, cs: seq<Stored>, truncated: bool)
    requires AllFit(cs) && EndsWhole(cs) && Holds(x, HDR_SIZE, Movi(cs))
    ensures !LastIsTorn(x, Scanned(ChunksOf(cs), End(cs), truncated), 2)
  {
    hide ChunkBytes, Holds, ChunkAt, Run;
    if cs != [] {
      var init, last := cs[..|cs| - 1], cs[|cs| - 1];
      HoldsParts(x, HDR_SIZE, Movi(init), ChunkBytes(last));
      ChunkHeld(x, End(init), last);
    }
  }

  /** The frame the walk would read at `at`. */
  function FrameAt(x: seq<byte>, at: nat): Stored
    requires ChunkAt(x, at, MAX_FRAME)
  {
    var n := Get32(x, at + 4);
    Stored(x[at + 8..at + 8 + n], x[at + 8 + n..at + Whole(n)])
  }

  lemma FrameAtBytes(x: seq<byte>, at: nat)
    requires ChunkAt(x, at, MAX_FRAME)
    ensures var c := FrameAt(x, at); c.Padded() && ChunkBytes(c) == x[at..at + Whole(Get32(x, at + 4))]
  {
    hide Put32, Get32;
    var n := Get32(x, at + 4);
    PutGet32(x, at + 4);
    assert x[at..at + 4] == DC;
    assert x[at..at + 8] == DC + x[at + 4..at + 8];
    assert x[at..at + 8 + n] == x[at..at + 8] + x[at + 8..at + 8 + n];
  }

  /** The last chunk that the walk reads is dropped if the walk was cut behind it, it holds two bytes and they are no EOI. */
  predicate LooksTorn(x: seq<byte>, at: nat)
    requires ChunkAt(x, at, MAX_FRAME)
  {
    var p := FrameAt(x, at).payload;
    CutAt(x, at + Whole(|p|)) && |p| >= 2 && !EndsEoi(p)
  }

  /** What ingest takes behind the completed chunks: whatever lies there and can be read as chunks. */
  function Phantoms(x: seq<byte>, at: nat): seq<Stored>
    decreases |x| - at
  {
    if !ChunkAt(x, at, MAX_FRAME) then []
    else
      var c := FrameAt(x, at);
      var next := at + Whole(|c.payload|);
      if ChunkAt(x, next, MAX_FRAME) then [c] + Phantoms(x, next)
      else if LooksTorn(x, at) then [] else [c]
  }

  /** The chunks that ingest keeps are those of the completed frames and of the phantoms. */
  lemma {:induction false} KeptFrames(x: seq<byte>, done: seq<Stored>)
    requires |x| >= HDR_SIZE && AllFit(done) && Holds(x, HDR_SIZE, Movi(done))
    requires ChunkAt(x, End(done), MAX_FRAME) || EndsWhole(done)
    ensures var k, cs := Kept(x), done + Phantoms(x, End(done));
      k.chunks == ChunksOf(cs) && k.end == End(cs) && x[HDR_SIZE..k.end] == Movi(cs)
    decreases |x| - End(done)
  {
    hide Run, ChunkBytes, Movi, Put32, Get32, ChunksOf, LastIsTorn, Kept, EndsWhole, AllFit;
    var at := End(done);
    assert done + [] == done;
    if !ChunkAt(x, at, MAX_FRAME) {
      KeptAlone(x, done);
    } else {
      var c := FrameAt(x, at);
      if ChunkAt(x, at + Whole(|c.payload|), MAX_FRAME) {
        OneFurther(x, done);
        KeptFrames(x, done + [c]);
        Assoc(done, [c], Phantoms(x, End(done + [c])));
      } else {
        KeptWithLast(x, done);
      }
    }
  }

  /** A chunk read behind chunks that are held is held with them. */
  lemma OneFurther(x: seq<byte>, done: seq<Stored>)
    requires AllFit(done) && Holds(x, HDR_SIZE, Movi(done)) && ChunkAt(x, End(done), MAX_FRAME)
    ensures var c := FrameAt(x, End(done));
      && AllFit(done + [c]) && End(done + [c]) == End(done) + Whole(|c.payload|) <= |x|
      && Holds(x, HDR_SIZE, Movi(done + [c]))
  {
    hide ChunkBytes, Movi, Put32, Get32;
    var at := End(done);
    var c := FrameAt(x, at);
    FrameAtBytes(x, at);
    MoviSnoc(done, c);
    Glue(x, HDR_SIZE, at, at + Whole(|c.payload|));
  }

  lemma KeptAlone(x: seq<byte>, done: seq<Stored>)
    requires |x| >= HDR_SIZE && AllFit(done) && EndsWhole(done) && Holds(x, HDR_SIZE, Movi(done))
    requires !ChunkAt(x, End(done), MAX_FRAME)
    ensures var k := Kept(x); k.chunks == ChunksOf(done) && k.end == End(done) && x[HDR_SIZE..k.end] == Movi(done)
  {
    hide Run, ChunkBytes, Movi, Put32, Get32, ChunksOf, LastIsTorn;
    MoviRun(x, done);
    LastNotTorn(x, done, CutAt(x, End(done)));
    RunIsScan(x, HDR_SIZE, ChunksOf(done), End(done), MAX_FRAME);
  }

  lemma KeptWithLast(x: seq<byte>, done: seq<Stored>)
    requires |x| >= HDR_SIZE && AllFit(done) && Holds(x, HDR_SIZE, Movi(done)) && ChunkAt(x, End(done), MAX_FRAME)
    requires !ChunkAt(x, End(done) + Whole(|FrameAt(x, End(done)).payload|), MAX_FRAME)
    ensures var k, cs := Kept(x), done + Phantoms(x, End(done));
      k.chunks == ChunksOf(cs) && k.end == End(cs) && x[HDR_SIZE..k.end] == Movi(cs)
  {
    hide Run, ChunkBytes, Movi, Put32, Get32, ChunksOf, LastIsTorn, AllFit;
    var e := End(done);
    MoviRun(x, done);
    var c := FrameAt(x, e);
    var e2, all := e + Whole(|c.payload|), ChunksOf(done) + [Chunk(e, |c.payload|)];
    RunSnoc(x, HDR_SIZE, ChunksOf(done), e, MAX_FRAME);
    RunIsScan(x, HDR_SIZE, all, e2, MAX_FRAME);
    MoviSnoc(done, c);
    FrameAtBytes(x, e);
    Glue(x, HDR_SIZE, e, e2);
    assert all[..|all| - 1] == ChunksOf(done) && done + [] == done;
    TornMeaning(x, Scanned(all, e2, CutAt(x, e2)), c);
  }

  lemma TornMeaning(x: seq<byte>, s: Scanned, c: Stored)
    requires s.chunks != [] && var l := s.chunks[|s.chunks| - 1];
      l.size == |c.payload| && l.off + 8 + l.size <= |x| && Payload(x, l) == c.payload
    ensures LastIsTorn(x, s, 2) == (s.truncated && |c.payload| >= 2 && !EndsEoi(c.payload))
  {
  }

  lemma ImageHolds(hdr: seq<byte>, done: seq<Stored>, part: seq<byte>, stale: seq<byte>)
    requires |hdr| == HDR_SIZE
    ensures var x := Image(hdr, done, part, stale);
      |x| >= HDR_SIZE && x[..HDR_SIZE] == hdr && Holds(x, HDR_SIZE, Movi(done)) && Holds(x, End(done), part)
  {
    hide Movi, Tail;
    var tail := Tail(stale, End(done) + |part|);
    var x := Image(hdr, done, part, stale);
    assert Holds(x, HDR_SIZE, Rest(done, part, stale));
    HoldsParts(x, HDR_SIZE, Movi(done), part + tail);
    HoldsParts(x, End(done), part, tail);
  }

  lemma HeaderTags(g: Geometry, x: seq<byte>)
    requires g.Valid() && |x| >= HDR_SIZE && HeaderLike(g, x[..HDR_SIZE])
    ensures Tag(x, 0, RIFF) && Tag(x, 8, AVI)
  {
    hide Header;
    var h := Header(g, EMPTY);
    HeaderFields(g, EMPTY);
    assert forall i :: 0 <= i < 4 ==> !Patched(i) && x[i] == x[..HDR_SIZE][i] == h[i];
    assert forall i :: 8 <= i < 12 ==> !Patched(i) && x[i] == x[..HDR_SIZE][i] == h[i];
  }

  /** Offsets and sizes of a run in a file below 4 GB fit the index. */
  lemma RunFits(x: seq<byte>, cs: seq<Chunk>, end: nat)
    requires Run(x, HDR_SIZE, cs, end, MAX_FRAME) && end <= |x| < TWO_32 && 16 * |cs| < TWO_32
    ensures IndexFits(cs)
  {
    hide Run;
    forall c | c in cs ensures Since(c.off, MOVI_FCC) < TWO_32 && c.size < TWO_32 {
      var i :| 0 <= i < |cs| && cs[i] == c;
      RunAt(x, HDR_SIZE, cs, end, MAX_FRAME, i);
    }
  }

  /** Ingesting a file that starts like a recording: the completed frames and the phantoms, closed. */
  lemma Recovery(g: Geometry, x: seq<byte>, done: seq<Stored>)
    requires g.Valid() && HDR_SIZE <= |x| < TWO_32 && HeaderLike(g, x[..HDR_SIZE]) && Holds(x, HDR_SIZE, Movi(done))
    requires AllIntact(done)
    ensures Recovered(g, x, done + Phantoms(x, End(done)))
  {
    hide Run, Header, Closed, Movi, ChunksOf, Phantoms, Holds, LastIsTorn, Drops, Tag, Scan;
    var k, cs := Kept(x), done + Phantoms(x, End(done));
    IntactFits(done);
    KeptFrames(x, done);
    HeaderTags(g, x);
    if 16 * |cs| < TWO_32 {
      RunFits(x, k.chunks, k.end);
    }
    ClosedSameHead(x[..HDR_SIZE], Header(g, EMPTY), Movi(cs), ChunksOf(cs));
  }

  lemma IntactFits(done: seq<Stored>)
    requires AllIntact(done)
    ensures AllFit(done) && EndsWhole(done)
  {
  }

  /** Ingesting `x` gives the closed clip of the frames `cs`, unless their index is too big for its size field. */
  predicate Recovered(g: Geometry, x: seq<byte>, cs: seq<Stored>)
    requires g.Valid()
  {
    if 16 * |cs| < TWO_32 then Ingest(x).Ok? && Ingest(x).value.data == Final(g, cs) && Ingest(x).value.frames == |cs|
    else Ingest(x) == Err(IndexRange)
  }

  // ---- the promise ----

  lemma {:induction false} DoneIntact(ops: seq<Op>)
    requires Sane(ops)
    ensures AllIntact(Done(ops))
    decreases |ops|
  {
    if ops != [] {
      DoneIntact(ops[..|ops| - 1]);
    }
  }

  /** What a cutoff of a running recording can be. */
  lemma {:induction false} ProgressSpec(g: Geometry, ops: seq<Op>, k: nat)
    requires g.Valid() && Sane(ops)
    ensures var c := Progress(g, ops, k);
      && AllIntact(c.done) && c.done <= Done(ops) && |c.flying| <= 1 && !c.indexed && (c.flying == [] ==> c.part == [])
      && (c.flying != [] ==> var f := c.flying[0];
            Intact(f) && |c.part| < |ChunkBytes(f)| && c.part == ChunkBytes(f)[..|c.part|] && c.done + [f] <= Done(ops))
    decreases |ops|
  {
    hide Trace, ChunkBytes, Intact;
    DoneIntact(ops);
    if ops != [] {
      var init, op := ops[..|ops| - 1], ops[|ops| - 1];
      DoneIntact(init);
      ProgressSpec(g, init, k);
    }
  }

  lemma {:induction false} EndMonotone(a: seq<Stored>, b: seq<Stored>)
    requires a <= b
    ensures End(a) <= End(b)
    decreases |b|
  {
    if |a| < |b| {
      EndMonotone(a, b[..|b| - 1]);
    } else {
      assert a == b;
    }
  }

  /** The file starts with a header of this recording, whatever its patched fields hold. */
  predicate StartsLike(g: Geometry, x: seq<byte>)
    requires g.Valid()
  {
    |x| >= HDR_SIZE && HeaderLike(g, x[..HDR_SIZE])
  }

  /**
   * Crash recovery. Cut a recording at any byte, over any old contents: ingest gives exactly what closing would
   * have written for the completed frames, and the phantoms behind them if there are any. Only a cut inside the
   * header's own write can leave a file that does not start like the recording, and nothing of it is recovered then.
   */
  lemma CrashRecovery(g: Geometry, stale: seq<byte>, rec: Recording, k: nat)
    requires g.Valid() && Sane(rec.ops) && k <= |FullTrace(g, rec)|
    requires End(Done(rec.ops)) + |FinalIndex(Done(rec.ops), rec.cap)| < TWO_32
    requires |Apply(stale, FullTrace(g, rec)[..k])| < TWO_32
    ensures var x, c := Apply(stale, FullTrace(g, rec)[..k]), CutOf(g, rec, k);
      && c.done <= Done(rec.ops) && (k >= HDR_SIZE ==> StartsLike(g, x))
      && (StartsLike(g, x) ==> Recovered(g, x, c.done + Phantoms(x, End(c.done))))
      && (!StartsLike(g, x) ==> forall cs :: !(Ingest(x).Ok? && Ingest(x).value.data == Final(g, cs)))
  {
    hide Apply, FullTrace, Trace, Image, Movi, Phantoms, Intact, Final, Header, Holds, Within, FinalIndex, Ingest, Recovered, Begun, HeaderLike, CutOf, Done;
    var x, c := Apply(stale, FullTrace(g, rec)[..k]), CutOf(g, rec, k);
    var hdr := AnyCut(g, stale, rec, k);
    if k >= HDR_SIZE {
      IsHeaderLike(g, hdr);
      ImageHolds(hdr, c.done, c.part, stale);
    } else {
      NothingHeld(x);
    }
    CutIntact(g, rec, k);
    if StartsLike(g, x) {
      Recovery(g, x, c.done);
    }
    forall cs | Ingest(x).Ok? && Ingest(x).value.data == Final(g, cs) ensures StartsLike(g, x) {
      FinalStartsLike(g, x, cs);
    }
  }

  lemma IsHeaderLike(g: Geometry, hdr: seq<byte>)
    requires g.Valid() && HeaderLike(g, hdr)
    ensures |hdr| == HDR_SIZE
  {
  }

  lemma NothingHeld(x: seq<byte>)
    ensures |x| >= HDR_SIZE ==> Holds(x, HDR_SIZE, Movi([]))
  {
  }

  lemma CutIntact(g: Geometry, rec: Recording, k: nat)
    requires g.Valid() && Sane(rec.ops)
    ensures var c := CutOf(g, rec, k); AllIntact(c.done) && c.done <= Done(rec.ops)
  {
    hide Trace, FinalIndex, Intact, Done, Progress;
    DoneIntact(rec.ops);
    ProgressSpec(g, rec.ops, k);
  }

  /** An ingest keeps the header it finds outside the patched fields. */
  lemma FinalStartsLike(g: Geometry, x: seq<byte>, cs: seq<Stored>)
    requires g.Valid() && Ingest(x).Ok? && Ingest(x).value.data == Final(g, cs)
    ensures StartsLike(g, x)
  {
    hide Header, Closed, Movi, ChunksOf, Kept, Run, Scan, Tag, IndexFits, Drops, LastIsTorn;
    var k, h, o := Kept(x), Header(g, EMPTY), Final(g, cs);
    ClosedRiff(x[..HDR_SIZE], x[HDR_SIZE..k.end], k.chunks);
    ClosedRiff(h, Movi(cs), ChunksOf(cs));
    assert forall i :: 0 <= i < HDR_SIZE && !Patched(i) ==> x[..HDR_SIZE][i] == o[i] == h[i];
  }

  /** From `at` on there is no chunk, or just one, which the torn-frame check drops. */
  predicate Nothing(x: seq<byte>, at: nat) {
    || !ChunkAt(x, at, MAX_FRAME)
    || (!ChunkAt(x, at + Whole(Get32(x, at + 4)), MAX_FRAME) && LooksTorn(x, at))
  }

  /** Nothing is read behind the completed chunks but what is dropped, or just the frame in flight is. */
  predicate Faithful(x: seq<byte>, c: Cutoff) {
    var at := End(c.done);
    || Nothing(x, at)
    || (c.flying != [] && ChunkAt(x, at, MAX_FRAME) && FrameAt(x, at).payload == c.flying[0].payload
        && Nothing(x, at + Whole(Get32(x, at + 4))))
  }

  /** The completed frames, or those and the one in flight with some pad. */
  ghost predicate AsPromised(g: Geometry, out: seq<byte>, c: Cutoff)
    requires g.Valid()
  {
    || out == Final(g, c.done)
    || (c.flying != [] && exists pad :: out == Final(g, c.done + [Stored(c.flying[0].payload, pad)]))
  }

  /** Files of the same completed frames and one more carry the same last payload when they are equal. */
  lemma FinalInjective(g: Geometry, done: seq<Stored>, a: Stored, b: Stored)
    requires g.Valid() && Final(g, done + [a]) == Final(g, done + [b])
    requires |a.payload| < TWO_32 && |b.payload| < TWO_32
    ensures a.payload == b.payload
  {
    hide Header, Closed, Movi, ChunksOf, ChunkBytes, Put32, Get32;
    var x, p, q := Final(g, done + [a]), ChunkBytes(a), ChunkBytes(b);
    MoviSnoc(done, a);
    MoviSnoc(done, b);
    ClosedSplit(Header(g, EMPTY), Movi(done + [a]), ChunksOf(done + [a]));
    ClosedSplit(Header(g, EMPTY), Movi(done + [b]), ChunksOf(done + [b]));
    HoldsParts(x, HDR_SIZE, Movi(done), p);
    HoldsParts(x, HDR_SIZE, Movi(done), q);
    assert p == q;
    ChunkParts(a);
    ChunkParts(b);
  }

  lemma ChunkParts(c: Stored)
    requires |c.payload| < TWO_32
    ensures var b := ChunkBytes(c);
      |b| >= 8 + |c.payload| && Get32(b, 4) == |c.payload| && b[8..8 + |c.payload|] == c.payload
  {
    hide Put32, Get32;
    var b, n := ChunkBytes(c), |c.payload|;
    assert b == DC + Put32(n) + (c.payload + c.pad) == (DC + Put32(n) + c.payload) + c.pad;
    assert b[4..8] == Put32(n);
    GetInside(b, 4, Put32(n));
    GetPut32(n);
  }

  /**
   * The promise is kept exactly when the file starts like the recording, which it does from the last byte of the
   * header on, and the bytes behind the completed frames do not look like other frames.
   */
  lemma PromiseKept(g: Geometry, stale: seq<byte>, rec: Recording, k: nat)
    requires g.Valid() && Sane(rec.ops) && k <= |FullTrace(g, rec)|
    requires End(Done(rec.ops)) + |FinalIndex(Done(rec.ops), rec.cap)| < TWO_32 && 16 * (|Done(rec.ops)| + 1) < TWO_32
    requires |Apply(stale, FullTrace(g, rec)[..k])| < TWO_32
    ensures var x, c := Apply(stale, FullTrace(g, rec)[..k]), CutOf(g, rec, k);
      && (k >= HDR_SIZE ==> StartsLike(g, x))
      && (Ingest(x).Ok? && AsPromised(g, Ingest(x).value.data, c) <==> StartsLike(g, x) && Faithful(x, c))
  {
    hide Apply, FullTrace, Trace, Image, Movi, Intact, Header, Final, Holds, Within, FinalIndex, Ingest, ChunksOf, Phantoms, StartsLike;
    var x, c := Apply(stale, FullTrace(g, rec)[..k]), CutOf(g, rec, k);
    CrashRecovery(g, stale, rec, k);
    FlyingSmall(g, rec, k);
    PhantomCount(x, c);
    if StartsLike(g, x) && 16 * (|c.done| + |Phantoms(x, End(c.done))|) < TWO_32 {
      PromiseCases(g, x, c, Final(g, c.done + Phantoms(x, End(c.done))));
    }
  }

  lemma FlyingSmall(g: Geometry, rec: Recording, k: nat)
    requires g.Valid() && Sane(rec.ops)
    ensures var c := CutOf(g, rec, k); c.flying != [] ==> Intact(c.flying[0]) && |c.flying[0].payload| < TWO_32
  {
    hide Trace, FinalIndex, ChunkBytes;
    ProgressSpec(g, rec.ops, k);
  }

  /** How many phantoms there are when the cut is faithful: none, or the frame in flight. */
  lemma PhantomCount(x: seq<byte>, c: Cutoff)
    requires c.flying != [] ==> Intact(c.flying[0])
    ensures var ps := Phantoms(x, End(c.done));
      Faithful(x, c) <==> ps == [] || (|ps| == 1 && c.flying != [] && ps[0].payload == c.flying[0].payload)
  {
    hide Movi, Get32, EndsEoi, CutAt;
    var at := End(c.done);
    if ChunkAt(x, at, MAX_FRAME) {
      assert |FrameAt(x, at).payload| == Get32(x, at + 4);
    }
  }

  lemma PromiseCases(g: Geometry, x: seq<byte>, c: Cutoff, out: seq<byte>)
    requires g.Valid() && out == Final(g, c.done + Phantoms(x, End(c.done)))
    requires c.flying != [] ==> Intact(c.flying[0]) && |c.flying[0].payload| < TWO_32
    requires 16 * (|c.done| + 1) < TWO_32 && 16 * (|c.done| + |Phantoms(x, End(c.done))|) < TWO_32
    requires |x| < TWO_32
    ensures AsPromised(g, out, c) <==> Faithful(x, c)
  {
    hide Movi, Header, Final, Get32, EndsEoi, CutAt, ChunkAt, Phantoms, FrameAt, Faithful, Nothing;
    var ps := Phantoms(x, End(c.done));
    assert c.done + [] == c.done;
    PhantomCount(x, c);
    if ps != [] {
      FinalDiffer(g, c.done, c.done + ps);
      PhantomSizes(x, End(c.done));
      if c.flying != [] {
        var f := c.flying[0].payload;
        if |ps| == 1 && ps[0].payload == f {
          assert ps == [Stored(f, ps[0].pad)];
        }
        forall pad | out == Final(g, c.done + [Stored(f, pad)]) ensures |ps| == 1 && ps[0].payload == f {
          if |ps| != 1 {
            FinalDiffer(g, c.done + ps, c.done + [Stored(f, pad)]);
          } else {
            assert ps == [ps[0]];
            FinalInjective(g, c.done, ps[0], Stored(f, pad));
          }
        }
      }
    }
  }

  lemma {:induction false} PhantomSizes(x: seq<byte>, at: nat)
    ensures forall i :: 0 <= i < |Phantoms(x, at)| ==> |Phantoms(x, at)[i].payload| < TWO_32
    decreases |x| - at
  {
    hide CutAt, EndsEoi;
    if ChunkAt(x, at, MAX_FRAME) {
      var next := at + Whole(Get32(x, at + 4));
      PhantomSizes(x, next);
    }
  }

  lemma FinalDiffer(g: Geometry, a: seq<Stored>, b: seq<Stored>)
    requires g.Valid() && |a| != |b| && 16 * |a| < TWO_32 && 16 * |b| < TWO_32
    ensures Final(g, a) != Final(g, b)
  {
    hide Header, Closed, Movi, ChunksOf;
    ClosedDiffer(Header(g, EMPTY), Movi(a), ChunksOf(a), Movi(b), ChunksOf(b));
  }

  /**
   * The whole payload of the frame in flight arrived: only its pad may be old bytes, and the promise is kept
   * exactly when nothing is read behind it.
   */
  lemma PayloadArrived(x: seq<byte>, c: Cutoff)
    requires c.flying != [] && Intact(c.flying[0]) && Holds(x, End(c.done), c.part)
    requires 8 + |c.flying[0].payload| <= |c.part| < |ChunkBytes(c.flying[0])| && c.part == ChunkBytes(c.flying[0])[..|c.part|]
    ensures var next := End(c.done) + Whole(|c.flying[0].payload|);
      Faithful(x, c) <==> next > |x| || Nothing(x, next)
  {
    hide ChunkBytes, Movi, CutAt, EndsEoi, Put32, Get32, Faithful, Nothing, ChunkAt;
    var f, at, b := c.flying[0], End(c.done), ChunkBytes(c.flying[0]);
    ChunkParts(f);
    Sub(x, at, at + |c.part|, 4, 8);
    Sub(b, 0, |c.part|, 4, 8);
    assert b[0..|c.part|] == c.part;
    GetInside(x, at + 4, b[4..8]);
    GetInside(b, 4, b[4..8]);
    Sub(x, at, at + |c.part|, 8, 8 + |f.payload|);
    Sub(b, 0, |c.part|, 8, 8 + |f.payload|);
    PartTag(x, at, f, c.part);
    assert x[at + 8..at + 8 + |f.payload|] == f.payload;
    ArrivedCases(x, c);
  }

  lemma ArrivedCases(x: seq<byte>, c: Cutoff)
    requires c.flying != [] && Intact(c.flying[0])
    requires var at, p := End(c.done), c.flying[0].payload;
      at + 8 + |p| <= |x| && Tag(x, at, DC) && Get32(x, at + 4) == |p| && x[at + 8..at + 8 + |p|] == p
    ensures var next := End(c.done) + Whole(|c.flying[0].payload|);
      Faithful(x, c) <==> next > |x| || Nothing(x, next)
  {
    hide ChunkBytes, Movi, CutAt, Put32, Get32, EndsEoi;
    assert |c.flying[0].payload| >= 2 ==> EndsEoi(c.flying[0].payload);
  }

  lemma PartTag(x: seq<byte>, at: nat, f: Stored, part: seq<byte>)
    requires 8 <= |part| <= |ChunkBytes(f)| && part == ChunkBytes(f)[..|part|] && Holds(x, at, part)
    ensures at + 8 <= |x| && Tag(x, at, DC)
  {
    var b := ChunkBytes(f);
    assert b == DC + (Put32(|f.payload|) + f.payload + f.pad);
    assert b[..4] == DC && part[..4] == DC;
    assert x[at] == x[at..at + |part|][0] && x[at + 1] == x[at..at + |part|][1];
    assert x[at + 2] == x[at..at + |part|][2] && x[at + 3] == x[at..at + |part|][3];
  }

  /**
   * A torn size field. With its four size bytes not yet written over a card of zeros, the frame in flight reads
   * as a dropout, which the torn-frame check does not look at: the copy gains an empty frame.
   */
  lemma TornSizeReadsAsDropout(x: seq<byte>, c: Cutoff)
    requires c.flying != [] && c.flying[0].payload != [] && Holds(x, End(c.done), c.part)
    requires c.part == ChunkBytes(c.flying[0])[..4] && |ChunkBytes(c.flying[0])| >= 8
    requires End(c.done) + 8 <= |x| && forall i :: End(c.done) + 4 <= i < End(c.done) + 8 ==> x[i] == 0
    ensures Phantoms(x, End(c.done)) != [] && Phantoms(x, End(c.done))[0] == Stored([], []) && !Faithful(x, c)
  {
    hide Movi, Put32, CutAt, EndsEoi;
    var at, b := End(c.done), ChunkBytes(c.flying[0]);
    assert b == DC + Put32(|c.flying[0].payload|) + c.flying[0].payload + c.flying[0].pad;
    assert c.part == DC;
    assert x[at..at + 4] == DC;
    assert x[at] == x[at..at + 4][0] && x[at + 1] == x[at..at + 4][1] && x[at + 2] == x[at..at + 4][2] && x[at + 3] == x[at..at + 4][3];
    assert x[at + 4] == 0 && x[at + 4 + 1] == 0 && x[at + 4 + 2] == 0 && x[at + 4 + 3] == 0;
    assert Get32(x, at + 4) == 0;
    Dropout(x, c);
  }

  /** A chunk of size zero is taken as an empty frame, whatever follows. */
  lemma Dropout(x: seq<byte>, c: Cutoff)
    requires var at := End(c.done); at + 8 <= |x| && Tag(x, at, DC) && Get32(x, at + 4) == 0
    requires c.flying != [] && c.flying[0].payload != []
    ensures var ps := Phantoms(x, End(c.done)); ps != [] && ps[0] == Stored([], []) && !Faithful(x, c)
  {
    hide Movi, Get32, CutAt, EndsEoi, ChunkAt, FrameAt;
    DropoutFrame(x, End(c.done));
  }

  lemma DropoutFrame(x: seq<byte>, at: nat)
    requires at + 8 <= |x| && Tag(x, at, DC) && Get32(x, at + 4) == 0
    ensures ChunkAt(x, at, MAX_FRAME) && FrameAt(x, at) == Stored([], [])
  {
    hide Get32, Tag;
  }

  /** The shortest recording there is: cut right behind its header, an ingest makes an empty closed clip of it. */
  lemma EmptyRecording(g: Geometry)
    requires g.Valid()
    ensures var x := Apply([], FullTrace(g, Recording([], false, false, 0))[..HDR_SIZE]);
      |x| == HDR_SIZE && Ingest(x).Ok? && Ingest(x).value.data == Final(g, [])
  {
    hide Header, Pokes, Apply, Ingest, Final;
    var rec := Recording([], false, false, 0);
    var h := Header(g, EMPTY);
    assert FullTrace(g, rec) == Pokes(0, h) == FullTrace(g, rec)[..HDR_SIZE];
    ApplyPokes([], 0, h);
    assert Overlay([], 0, h) == h;
    var x := Apply([], FullTrace(g, rec)[..HDR_SIZE]);
    CrashRecovery(g, [], rec, HDR_SIZE);
    assert Phantoms(x, HDR_SIZE) == [];
    assert [] + Phantoms(x, HDR_SIZE) == [];
  }

  // ---- the header is never ahead of the data ----

  /**
   * At every byte of a recording: every running field that has been written counts no more than the complete
   * chunks, which are all there; the index is promised only when the whole of it is there, and then it is the final
   * index, which names every chunk exactly when the buffer had room for them all.
   */
  lemma NeverAhead(g: Geometry, stale: seq<byte>, rec: Recording, k: nat)
    requires g.Valid() && Sane(rec.ops) && k <= |FullTrace(g, rec)|
    requires End(Done(rec.ops)) + |FinalIndex(Done(rec.ops), rec.cap)| < TWO_32
    ensures var x, c := Apply(stale, FullTrace(g, rec)[..k]), CutOf(g, rec, k);
      && (k < HDR_SIZE ==> k <= |x|)
      && (k >= HDR_SIZE ==> |x| >= End(c.done) && Run(x, HDR_SIZE, ChunksOf(c.done), End(c.done), MAX_FRAME))
      && (OFF_TOTALFRAMES + 4 <= k ==> Get32(x, OFF_TOTALFRAMES) <= |c.done|)
      && (OFF_STRH_LEN + 4 <= k ==> Get32(x, OFF_STRH_LEN) <= |c.done|)
      && (OFF_MOVISZ + 4 <= k ==> Get32(x, OFF_MOVISZ) <= 4 + |Movi(c.done)|)
      && (OFF_RIFFSZ + 4 <= k ==> Get32(x, OFF_RIFFSZ) + 8 <= End(c.done) + if c.indexed then |c.part| else 0)
      && (OFF_FLAGS + 4 <= k ==> Get32(x, OFF_FLAGS) == 0x100 || (Get32(x, OFF_FLAGS) == 0x110 && c.indexed))
      && (c.indexed ==> k >= HDR_SIZE && c.part == FinalIndex(c.done, rec.cap) && Holds(x, End(c.done), c.part))
      && (c.indexed ==> (c.part == Index(ChunksOf(c.done)) <==> |c.done| <= rec.cap))
  {
    hide Apply, FullTrace, Trace, Image, Movi, Intact, Header, FinalIndex, Run, ChunksOf, Get32, Holds, Begun, CutOf, HeaderLike, Within;
    var x, c := Apply(stale, FullTrace(g, rec)[..k]), CutOf(g, rec, k);
    var hdr := AnyCut(g, stale, rec, k);
    if k < HDR_SIZE {
      BegunFields(g, stale, k);
    } else {
      IsHeaderLike(g, hdr);
      ImageHolds(hdr, c.done, c.part, stale);
      CutIntact(g, rec, k);
      IntactFits(c.done);
      MoviRun(x, c.done);
      HeldEnd(x, c.done);
      SameFields(x, hdr, CutBounds(c));
      if c.indexed {
        CutIndex(g, rec, k);
        IndexNamesAll(c.done, rec.cap);
      }
    }
  }

  lemma CutIndex(g: Geometry, rec: Recording, k: nat)
    requires g.Valid() && CutOf(g, rec, k).indexed
    ensures var c := CutOf(g, rec, k); c.part == FinalIndex(c.done, rec.cap)
  {
    hide Trace, FinalIndex, Done;
    RunningIsNotIndexed(g, rec.ops, k);
    var i := FinalIndex(Done(rec.ops), rec.cap);
    assert i[..|i|] == i;
  }

  /** A staged index names every chunk exactly when the buffer had room for them all. */
  lemma IndexNamesAll(done: seq<Stored>, cap: nat)
    ensures FinalIndex(done, cap) == Index(ChunksOf(done)) <==> |done| <= cap
  {
    hide Index, ChunksOf;
    assert ChunksOf(done)[..|done|] == ChunksOf(done);
  }

  /** Inside the header's own write the fields that arrived are those of an empty movie. */
  lemma BegunFields(g: Geometry, stale: seq<byte>, k: nat)
    requires g.Valid() && k < HDR_SIZE
    ensures var x := Begun(g, stale, k);
      && k <= |x| && (OFF_TOTALFRAMES + 4 <= k ==> Get32(x, OFF_TOTALFRAMES) == 0)
      && (OFF_STRH_LEN + 4 <= k ==> Get32(x, OFF_STRH_LEN) == 0) && (OFF_MOVISZ + 4 <= k ==> Get32(x, OFF_MOVISZ) == 4)
      && (OFF_RIFFSZ + 4 <= k ==> Get32(x, OFF_RIFFSZ) == HDR_SIZE - 8) && (OFF_FLAGS + 4 <= k ==> Get32(x, OFF_FLAGS) == 0x100)
  {
    hide Header, Get32;
    HeaderFields(g, EMPTY);
    BegunField(g, stale, k, OFF_RIFFSZ, HDR_SIZE - 8);
    BegunField(g, stale, k, OFF_FLAGS, 0x100);
    BegunField(g, stale, k, OFF_TOTALFRAMES, 0);
    BegunField(g, stale, k, OFF_STRH_LEN, 0);
    BegunField(g, stale, k, OFF_MOVISZ, 4);
  }

  lemma BegunField(g: Geometry, stale: seq<byte>, k: nat, at: nat, v: nat)
    requires g.Valid() && k < HDR_SIZE && at + 4 <= HDR_SIZE && Header(g, EMPTY)[at..at + 4] == Put32(v) && v < TWO_32
    ensures at + 4 <= k ==> at + 4 <= |Begun(g, stale, k)| && Get32(Begun(g, stale, k), at) == v
  {
    hide Header, Get32, Put32;
    var x, h := Begun(g, stale, k), Header(g, EMPTY);
    if at + 4 <= k {
      assert x[at..at + 4] == h[at..at + 4];
      GetInside(x, at, Put32(v));
      GetPut32(v);
    }
  }

  lemma HeldEnd(x: seq<byte>, done: seq<Stored>)
    requires Holds(x, HDR_SIZE, Movi(done))
    ensures End(done) <= |x|
  {
  }

  lemma SameFields(x: seq<byte>, hdr: seq<byte>, b: Fields)
    requires |hdr| == HDR_SIZE <= |x| && x[..HDR_SIZE] == hdr && Within(hdr, b)
    ensures Within(x[..HDR_SIZE], b)
    ensures Get32(x, OFF_RIFFSZ) <= b.riff && Get32(x, OFF_TOTALFRAMES) <= b.total
    ensures Get32(x, OFF_STRH_LEN) <= b.length && Get32(x, OFF_MOVISZ) <= b.movi
    ensures Get32(x, OFF_FLAGS) == 0x100 || (b.flags == 0x110 && Get32(x, OFF_FLAGS) == 0x110)
  {
    hide Get32;
    SameField(x, hdr, OFF_RIFFSZ);
    SameField(x, hdr, OFF_FLAGS);
    SameField(x, hdr, OFF_TOTALFRAMES);
    SameField(x, hdr, OFF_STRH_LEN);
    SameField(x, hdr, OFF_MOVISZ);
  }

  lemma SameField(x: seq<byte>, hdr: seq<byte>, at: nat)
    requires |hdr| == HDR_SIZE <= |x| && x[..HDR_SIZE] == hdr && at + 4 <= HDR_SIZE
    ensures Get32(x, at) == Get32(hdr, at)
  {
    assert x[at] == hdr[at] && x[at + 1] == hdr[at + 1] && x[at + 2] == hdr[at + 2] && x[at + 3] == hdr[at + 3];
  }

  lemma WholeAligned(n: nat)
    ensures Whole(n) % 4 == 0
  {
  }

  lemma {:induction false} MoviAligned(cs: seq<Stored>)
    requires forall i :: 0 <= i < |cs| ==> cs[i].Padded()
    ensures |Movi(cs)| % 4 == 0
    decreases |cs|
  {
    hide Whole, ChunkBytes;
    if cs != [] {
      MoviAligned(cs[..|cs| - 1]);
      WholeAligned(|cs[|cs| - 1].payload|);
    }
  }

  /** Every chunk starts on a multiple of four. */
  lemma {:induction false} ChunksAligned(cs: seq<Stored>, i: nat)
    requires (forall i :: 0 <= i < |cs| ==> cs[i].Padded()) && i < |cs|
    ensures ChunksOf(cs)[i].off % 4 == 0
    decreases |cs|
  {
    hide Movi;
    var init := cs[..|cs| - 1];
    if i < |init| {
      ChunksAligned(init, i);
    } else {
      MoviAligned(init);
    }
  }

  // ---- what closing and refreshing leave behind ----

  function RunningHeader(h: seq<byte>, riff: nat, frames: nat, movi: nat): seq<byte> {
    Overlay(Overlay(Overlay(Overlay(h, OFF_RIFFSZ, Put32(riff)), OFF_TOTALFRAMES, Put32(frames)),
                    OFF_STRH_LEN, Put32(frames)), OFF_MOVISZ, Put32(movi))
  }

  lemma RunningApplied(h: seq<byte>, rest: seq<byte>, done: seq<Stored>, riff: nat)
    requires |h| == HDR_SIZE
    ensures var y := RunningHeader(h, riff, |done|, |Movi(done)| + 4);
      |y| == HDR_SIZE && Apply(h + rest, RunningPokes(done, riff)) == y + rest
  {
    hide Movi, Put32, Pokes;
    var n, m := Put32(|done|), Put32(|Movi(done)| + 4);
    var a, b, c, d := Pokes(OFF_RIFFSZ, Put32(riff)), Pokes(OFF_TOTALFRAMES, n), Pokes(OFF_STRH_LEN, n), Pokes(OFF_MOVISZ, m);
    ApplyAppend(h + rest, a + b + c, d);
    ApplyAppend(h + rest, a + b, c);
    ApplyAppend(h + rest, a, b);
    var h1 := OneField(h, rest, OFF_RIFFSZ, Put32(riff));
    var h2 := OneField(h1, rest, OFF_TOTALFRAMES, n);
    var h3 := OneField(h2, rest, OFF_STRH_LEN, n);
    var h4 := OneField(h3, rest, OFF_MOVISZ, m);
  }

  lemma OneField(h: seq<byte>, rest: seq<byte>, at: nat, d: seq<byte>) returns (y: seq<byte>)
    requires |h| == HDR_SIZE && at + |d| <= HDR_SIZE
    ensures y == Overlay(h, at, d) && |y| == HDR_SIZE && Apply(h + rest, Pokes(at, d)) == y + rest
  {
    hide Pokes, Apply;
    y := Overlay(h, at, d);
    ApplyPokes(h + rest, at, d);
    OverlayFront(h, rest, at, d);
  }

  lemma RunningHeaderAt(h: seq<byte>, riff: nat, frames: nat, movi: nat)
    requires |h| == HDR_SIZE
    ensures var y := RunningHeader(h, riff, frames, movi);
      && |y| == HDR_SIZE && y[4..8] == Put32(riff) && y[44..48] == h[44..48] && y[48..52] == Put32(frames)
      && y[140..144] == Put32(frames) && y[216..220] == Put32(movi)
      && forall i :: 0 <= i < HDR_SIZE && !Patched(i) ==> y[i] == h[i]
  {
    hide Put32;
  }

  /** Patched in the recorder's order or in the desktop's, a header ends up the same. */
  lemma PatchOrders(h: seq<byte>, finalLen: nat, frames: nat, movi: nat)
    requires |h| == HDR_SIZE && finalLen >= 8
    ensures RunningHeader(Overlay(h, OFF_FLAGS, Put32(0x110)), finalLen - 8, frames, movi)
         == PatchHeader(h, finalLen, frames, movi)
  {
    hide Put32;
    assert FLAG_INTERLEAVED + FLAG_HASINDEX == 0x110;
    assert RunningHeader(Overlay(h, OFF_FLAGS, Put32(0x110)), finalLen - 8, frames, movi)
        == PatchHeader(h, finalLen, frames, movi);
  }

  lemma EndOfTrace(g: Geometry, stale: seq<byte>, ops: seq<Op>) returns (hdr: seq<byte>)
    requires g.Valid() && Sane(ops) && End(Done(ops)) < TWO_32
    ensures Apply(stale, Trace(g, ops)) == Image(hdr, Done(ops), [], stale)
    ensures HeaderLike(g, hdr) && Within(hdr, Bounds(Done(ops)))
  {
    hide Trace, Apply, Image, HeaderLike, Within, Movi, Done;
    var t := Trace(g, ops);
    HeaderFirst(g, ops);
    hdr := RunningCut(g, stale, ops, |t|);
    assert t[..|t|] == t;
    ProgressFull(g, ops);
  }

  /** A completed refresh leaves a header that counts exactly the chunks in the file, and promises no index. */
  lemma RefreshIsExact(g: Geometry, stale: seq<byte>, ops: seq<Op>)
    requires g.Valid() && Sane(ops) && End(Done(ops)) < TWO_32
    ensures var x, done := Apply(stale, Trace(g, ops + [Refresh])), Done(ops);
      && |x| >= End(done) && Run(x, HDR_SIZE, ChunksOf(done), End(done), MAX_FRAME)
      && Get32(x, OFF_TOTALFRAMES) == |done| && Get32(x, OFF_STRH_LEN) == |done| && Get32(x, OFF_FLAGS) == 0x100
      && MOVI_FCC + Get32(x, OFF_MOVISZ) == End(done) && Get32(x, OFF_RIFFSZ) + 8 == End(done)
  {
    hide Trace, Apply, Movi, Done, RunningHeader, Put32, Get32, Header, Run, ChunksOf, RunningPokes, Holds;
    var done, riff := Done(ops), HDR_SIZE - 8 + |Movi(Done(ops))|;
    var hdr := EndOfTrace(g, stale, ops);
    var rest := Rest(done, [], stale);
    TraceSnoc(g, ops, Refresh);
    ApplyAppend(stale, Trace(g, ops), RunningPokes(done, riff));
    RunningApplied(hdr, rest, done, riff);
    var y := RunningHeader(hdr, riff, |done|, |Movi(done)| + 4);
    RunningHeaderAt(hdr, riff, |done|, |Movi(done)| + 4);
    var x := y + rest;
    ImageHolds(y, done, [], stale);
    DoneIntact(ops);
    MoviRun(x, done);
    HeldEnd(x, done);
    MoviLength(done);
    FieldOf(x, y, OFF_RIFFSZ, riff);
    FieldOf(x, y, OFF_TOTALFRAMES, |done|);
    FieldOf(x, y, OFF_STRH_LEN, |done|);
    FieldOf(x, y, OFF_MOVISZ, |Movi(done)| + 4);
    SameField(x, y, OFF_FLAGS);
    GetInside(y, OFF_FLAGS, hdr[44..48]);
    GetInside(hdr, OFF_FLAGS, hdr[44..48]);
  }

  /** Closing with room for every entry leaves, up to its end, the file that `Final` describes. */
  lemma ClosingIsFinal(g: Geometry, stale: seq<byte>, ops: seq<Op>, cap: nat)
    requires g.Valid() && Sane(ops) && End(Done(ops)) < TWO_32 && |Done(ops)| <= cap
    ensures var x, f := Apply(stale, FullTrace(g, Recording(ops, true, true, cap))), Final(g, Done(ops));
      |f| <= |x| && x[..|f|] == f
  {
    hide Trace, Apply, Movi, Done, Put32, Header, ChunksOf, RunningPokes, PatchHeader, Index, FinishPokes, Pokes, Image, Sane, Final;
    var done, i := Done(ops), FinalIndex(Done(ops), cap);
    var hdr := EndOfTrace(g, stale, ops);
    assert ChunksOf(done)[..|done|] == ChunksOf(done);
    var riff := HDR_SIZE - 8 + |Movi(done)| + |i|;
    var a, f, z := Pokes(End(done), i), Pokes(OFF_FLAGS, Put32(0x110)), RunningPokes(done, riff);
    FinishShape(done, cap);
    ApplyAppend(stale, Trace(g, ops), a + f + z);
    var img := Image(hdr, done, [], stale);
    Assoc(a, f, z);
    ApplyAppend(img, a, f + z);
    AppendImage(hdr, done, i, stale);
    ClosingPatched(g, hdr, done, i, stale);
    FinalFront(g, done, i, stale);
  }

  lemma FinalFront(g: Geometry, done: seq<Stored>, i: seq<byte>, stale: seq<byte>)
    requires g.Valid() && i == Index(ChunksOf(done))
    ensures var x, f := Image(PatchHeader(Header(g, EMPTY), End(done) + |i|, |done|, 4 + |Movi(done)|), done, i, stale), Final(g, done);
      |f| <= |x| && x[..|f|] == f
  {
    hide Movi, Put32, Header, ChunksOf, PatchHeader, Index, Tail;
    var p, tail := PatchHeader(Header(g, EMPTY), End(done) + |i|, |done|, 4 + |Movi(done)|), Tail(stale, End(done) + |i|);
    Assoc(Movi(done), i, tail);
    Assoc(p, Movi(done) + i, tail);
    Assoc(p, Movi(done), i);
  }

  /** The flag and the running fields, written over the header of an image that holds the index. */
  lemma ClosingPatched(g: Geometry, hdr: seq<byte>, done: seq<Stored>, i: seq<byte>, stale: seq<byte>)
    requires g.Valid() && HeaderLike(g, hdr)
    ensures var riff := HDR_SIZE - 8 + |Movi(done)| + |i|;
      Apply(Image(hdr, done, i, stale), Pokes(OFF_FLAGS, Put32(0x110)) + RunningPokes(done, riff))
      == Image(PatchHeader(Header(g, EMPTY), riff + 8, |done|, 4 + |Movi(done)|), done, i, stale)
  {
    hide Apply, Movi, RunningHeader, Put32, Header, RunningPokes, PatchHeader, Pokes;
    var riff := HDR_SIZE - 8 + |Movi(done)| + |i|;
    var rest := Rest(done, i, stale);
    ApplyAppend(Image(hdr, done, i, stale), Pokes(OFF_FLAGS, Put32(0x110)), RunningPokes(done, riff));
    var h1 := OneField(hdr, rest, OFF_FLAGS, Put32(0x110));
    RunningApplied(h1, rest, done, riff);
    PatchOrders(hdr, riff + 8, |done|, |Movi(done)| + 4);
    PatchHeaderSame(hdr, Header(g, EMPTY), riff + 8, |done|, 4 + |Movi(done)|);
  }

  lemma FinishShape(done: seq<Stored>, cap: nat)
    ensures var i := FinalIndex(done, cap);
      FinishPokes(done, true, cap) == Pokes(End(done), i) + Pokes(OFF_FLAGS, Put32(0x110))
                                      + RunningPokes(done, HDR_SIZE - 8 + |Movi(done)| + |i|)
  {
    hide Pokes, Put32, RunningPokes, FinalIndex, Movi;
  }

  /** Garbage that does not pretend to be a chunk keeps the promise; only a torn size field is left to luck. */
  lemma GarbageKeepsPromise(x: seq<byte>, c: Cutoff)
    requires c.flying != [] ==> Intact(c.flying[0]) && Holds(x, End(c.done), c.part) && |c.part| < |ChunkBytes(c.flying[0])|
    requires c.flying != [] ==> c.part == ChunkBytes(c.flying[0])[..|c.part|]
    requires var at := End(c.done);
      if c.flying == [] || |c.part| < 4 then at + 8 <= |x| ==> !Tag(x, at, DC)
      else
        var next := at + Whole(|c.flying[0].payload|);
        && |c.part| >= 8 && (next + 8 <= |x| ==> !Tag(x, next, DC))
        && (ChunkAt(x, at, MAX_FRAME) && |c.part| < 8 + |c.flying[0].payload| ==> CutAt(x, next) && !EndsEoi(FrameAt(x, at).payload))
    ensures Faithful(x, c)
  {
    hide Movi, ChunkBytes, CutAt, Put32, Get32;
    if c.flying != [] && |c.part| >= 8 {
      var f, at, b := c.flying[0], End(c.done), ChunkBytes(c.flying[0]);
      if |c.part| >= 8 + |f.payload| {
        PayloadArrived(x, c);
      } else {
        ChunkParts(f);
        Sub(x, at, at + |c.part|, 4, 8);
        Sub(b, 0, |c.part|, 4, 8);
        assert b[0..|c.part|] == c.part;
        GetInside(x, at + 4, b[4..8]);
        GetInside(b, 4, b[4..8]);
      }
    }
  }
}
