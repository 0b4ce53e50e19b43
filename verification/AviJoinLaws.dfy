/**
 * Laws of the join. A segment whose last chunk lost its pad bytes is ragged: the next body lands up to three
 * bytes early, and every law below holds exactly when no ragged segment is in the way.
 */
module AviJoinLaws {
  import opened Wrappers
  import opened Bytes
  import opened AviFormat
  import opened AviIngest
  import opened AviRepair
  import opened AviFrames
  import opened AviJoin

  /** The segment's file ends inside the pad of its last chunk. */
  predicate Ragged(f: seq<byte>) {
    |f| >= HDR_SIZE && PadCut(f, Scan(f, HDR_SIZE, NO_LIMIT).end)
  }

  /** How many pad bytes a ragged segment lacks. */
  function Missing(f: seq<byte>): (m: nat)
    requires Ragged(f)
    ensures 1 <= m <= 3
  {
    var at := Scan(f, HDR_SIZE, NO_LIMIT).end;
    at + Whole(Get32(f, at + 4)) - |f|
  }

  function FirstRagged(fs: seq<seq<byte>>): nat {
    if fs == [] || Ragged(fs[0]) then 0 else 1 + FirstRagged(fs[1..])
  }

  lemma {:induction false} FirstRaggedSpec(fs: seq<seq<byte>>)
    ensures var j := FirstRagged(fs);
      && j <= |fs| && (forall i :: 0 <= i < j ==> !Ragged(fs[i])) && (j < |fs| ==> Ragged(fs[j]))
    decreases |fs|
  {
    hide Ragged;
    if fs != [] && !Ragged(fs[0]) {
      FirstRaggedSpec(fs[1..]);
      forall i | 0 <= i < FirstRagged(fs) ensures !Ragged(fs[i]) {
        if i > 0 {
          assert fs[i] == fs[1..][i - 1];
        }
      }
    }
  }

  /** A body is a slice of its file. */
  lemma BodyHeld(f: seq<byte>, x: seq<byte>, mid: nat)
    requires |f| >= HDR_SIZE && Holds(x, mid, Body(f))
    ensures var n := Walk(f).end - HDR_SIZE;
      HDR_SIZE <= Walk(f).end <= |f| && mid + n <= |x| && |Body(f)| == n && x[mid..mid + n] == f[HDR_SIZE..Walk(f).end]
  {
    hide Walk;
    WalkBounds(f);
  }

  /** A segment's body, wherever it lands, holds the segment's chunks up to a ragged last one. */
  lemma SegmentRun(f: seq<byte>, x: seq<byte>, mid: nat)
    requires |f| >= HDR_SIZE && Holds(x, mid, Body(f))
    ensures var s := Scan(f, HDR_SIZE, NO_LIMIT);
      s.end <= Walk(f).end && Run(x, mid, Moved(s.chunks, HDR_SIZE, mid), mid + s.end - HDR_SIZE, NO_LIMIT)
  {
    hide Run, Moved, ChunkAt, Scan, Walk, Body, Holds;
    var s := Scan(f, HDR_SIZE, NO_LIMIT);
    BodyHeld(f, x, mid);
    BodyEnd(f);
    ScanIsRun(f, HDR_SIZE, NO_LIMIT);
    RunBounds(f, HDR_SIZE, s.chunks, s.end, NO_LIMIT);
    var n := s.end - HDR_SIZE;
    SliceMoved(x, mid, f, HDR_SIZE, Walk(f).end, 0, n);
    RunMoved(f, HDR_SIZE, s.chunks, s.end, NO_LIMIT, x, mid, mid + n);
  }

  /** The bodies of whole segments hold the rebased chunks. */
  lemma {:induction false} JoinRun(fs: seq<seq<byte>>, x: seq<byte>)
    requires Clips(fs) && Holds(x, HDR_SIZE, Bodies(fs)) && forall i :: 0 <= i < |fs| ==> !Ragged(fs[i])
    ensures Run(x, HDR_SIZE, Chunks(fs), HDR_SIZE + |Bodies(fs)|, NO_LIMIT)
    decreases |fs|
  {
    hide Run, Moved, Scan, Body, Holds;
    if fs == [] {
      RunNil(x, HDR_SIZE);
    } else {
      var init, last := fs[..|fs| - 1], fs[|fs| - 1];
      HoldsParts(x, HDR_SIZE, Bodies(init), Body(last));
      JoinRun(init, x);
      var mid := HDR_SIZE + |Bodies(init)|;
      SegmentRun(last, x, mid);
      BodyEnd(last);
      RunAppend(x, HDR_SIZE, Chunks(init), mid, Moved(Walk(last).chunks, HDR_SIZE, mid), HDR_SIZE + |Bodies(fs)|, NO_LIMIT);
    }
  }

  lemma RunNil(x: seq<byte>, at: nat)
    ensures Run(x, at, [], at, NO_LIMIT)
  {
  }

  lemma BodyEnd(f: seq<byte>)
    requires |f| >= HDR_SIZE
    ensures |Body(f)| == Walk(f).end - HDR_SIZE
    ensures !Ragged(f) ==> Walk(f) == Scan(f, HDR_SIZE, NO_LIMIT)
    ensures Scan(f, HDR_SIZE, NO_LIMIT).end <= Walk(f).end
    ensures Ragged(f) ==> var s := Scan(f, HDR_SIZE, NO_LIMIT);
      Walk(f).end == |f| && Walk(f).chunks == s.chunks + [Chunk(s.end, Get32(f, s.end + 4))]
  {
    WalkBounds(f);
  }

  /** After a ragged segment the walk takes the missing pad from whatever follows. */
  lemma RaggedRun(pre: seq<seq<byte>>, f: seq<byte>, x: seq<byte>)
    requires Clips(pre) && (forall i :: 0 <= i < |pre| ==> !Ragged(pre[i])) && Ragged(f)
    requires Holds(x, HDR_SIZE, Bodies(pre + [f])) && HDR_SIZE + |Bodies(pre + [f])| + 3 <= |x|
    ensures Run(x, HDR_SIZE, Chunks(pre + [f]), HDR_SIZE + |Bodies(pre + [f])| + Missing(f), NO_LIMIT)
    ensures Chunks(pre + [f]) != []
  {
    hide Run, Moved, Scan, Holds, ChunkAt, Body, Bodies, Chunks;
    var s, mid, size := Scan(f, HDR_SIZE, NO_LIMIT), HDR_SIZE + |Bodies(pre)|, Get32(f, Scan(f, HDR_SIZE, NO_LIMIT).end + 4);
    var at := mid + s.end - HDR_SIZE;
    Snoc(pre, f);
    BodyEnd(f);
    HoldsParts(x, HDR_SIZE, Bodies(pre), Body(f));
    JoinRun(pre, x);
    SegmentRun(f, x, mid);
    RunAppend(x, HDR_SIZE, Chunks(pre), mid, Moved(s.chunks, HDR_SIZE, mid), at, NO_LIMIT);
    RaggedChunk(f, x, mid);
    RunSnoc(x, HDR_SIZE, Chunks(pre) + Moved(s.chunks, HDR_SIZE, mid), at, NO_LIMIT);
    MovedAppend(s.chunks, [Chunk(s.end, size)], HDR_SIZE, mid);
    MovedOne(Chunk(s.end, size), HDR_SIZE, mid);
    Assoc(Chunks(pre), Moved(s.chunks, HDR_SIZE, mid), [Chunk(at, size)]);
  }

  lemma MovedOne(c: Chunk, from: nat, to: nat)
    ensures Moved([c], from, to) == [Chunk(Since(c.off, from) + to, c.size)]
  {
  }

  /** The ragged chunk itself, once something follows it. */
  lemma RaggedChunk(f: seq<byte>, x: seq<byte>, mid: nat)
    requires Ragged(f) && Holds(x, mid, Body(f)) && mid + |Body(f)| + 3 <= |x|
    ensures var at := Scan(f, HDR_SIZE, NO_LIMIT).end; var to := mid + at - HDR_SIZE;
      HDR_SIZE <= at && ChunkAt(x, to, NO_LIMIT) && Get32(x, to + 4) == Get32(f, at + 4)
      && to + Whole(Get32(f, at + 4)) == mid + |Body(f)| + Missing(f)
  {
    hide Scan, Run, Walk, Body, Holds, Get32, Tag;
    BodyEnd(f);
    BodyHeld(f, x, mid);
    var at := Scan(f, HDR_SIZE, NO_LIMIT).end;
    ScanIsRun(f, HDR_SIZE, NO_LIMIT);
    RunBounds(f, HDR_SIZE, Scan(f, HDR_SIZE, NO_LIMIT).chunks, at, NO_LIMIT);
    var p := at - HDR_SIZE;
    SliceMoved(x, mid, f, HDR_SIZE, Walk(f).end, p, 8);
    EightBytes(f, at, x, mid + p);
  }

  /** The same eight bytes are the same chunk header. */
  lemma EightBytes(f: seq<byte>, a: nat, x: seq<byte>, b: nat)
    requires a + 8 <= |f| && b + 8 <= |x| && f[a..a + 8] == x[b..b + 8]
    ensures Tag(f, a, DC) == Tag(x, b, DC) && Get32(f, a + 4) == Get32(x, b + 4)
  {
    var e := f[a..a + 8];
    assert f[a] == e[0] == x[b] && f[a + 1] == e[1] == x[b + 1] && f[a + 2] == e[2] == x[b + 2];
    assert f[a + 3] == e[3] == x[b + 3] && f[a + 4] == e[4] == x[b + 4] && f[a + 4 + 1] == e[5] == x[b + 4 + 1];
    assert f[a + 4 + 2] == e[6] == x[b + 4 + 2] && f[a + 4 + 3] == e[7] == x[b + 4 + 3];
  }

  /** Eight bytes of a block read the same in the file that holds it. */
  lemma HeaderCopied(x: seq<byte>, base: nat, b: seq<byte>, p: nat)
    requires Holds(x, base, b) && p + 8 <= |b|
    ensures Tag(b, p, DC) == Tag(x, base + p, DC) && Get32(b, p + 4) == Get32(x, base + p + 4)
    ensures Tag(b, p, IDX1) == Tag(x, base + p, IDX1)
  {
    assert b[p] == x[base + p] && b[p + 1] == x[base + p + 1] && b[p + 2] == x[base + p + 2];
    assert b[p + 3] == x[base + p + 3] && b[p + 4] == x[base + p + 4];
    assert b[p + 5] == x[base + p + 4 + 1] && b[p + 6] == x[base + p + 4 + 2];
    assert b[p + 7] == x[base + p + 4 + 3];
  }

  /** A body that is not empty starts with a chunk. */
  lemma {:induction false} BodiesHead(fs: seq<seq<byte>>)
    requires Clips(fs) && Bodies(fs) != []
    ensures |Bodies(fs)| >= 8 && Tag(Bodies(fs), 0, DC)
    decreases |fs|
  {
    hide Scan;
    var init, last := fs[..|fs| - 1], fs[|fs| - 1];
    if Bodies(init) != [] {
      BodiesHead(init);
    } else {
      WalkBounds(last);
      assert Bodies(fs) == Body(last);
      BodyEnd(last);
      ScanIsRun(last, HDR_SIZE, NO_LIMIT);
      assert ChunkAt(last, HDR_SIZE, NO_LIMIT) || PadCut(last, HDR_SIZE);
      HeaderCopied(last, HDR_SIZE, Body(last), 0);
    }
  }

  /** One to three bytes into a chunk or an index, there is neither a chunk nor a follower. */
  lemma ShiftedStops(x: seq<byte>, at: nat, m: nat)
    requires 1 <= m <= 3 && at + m + 8 <= |x| && (Tag(x, at, DC) || Tag(x, at, IDX1))
    ensures !Tag(x, at + m, DC) && !Follower(x, at + m)
  {
  }

  /**
   * What the walk finds in a join: every segment's chunks when none is ragged, and otherwise the chunks up to
   * and including the first ragged segment.
   */
  lemma JoinWalk(fs: seq<seq<byte>>)
    requires Clips(fs) && Join(fs).Ok?
    ensures var j, w := FirstRagged(fs), Walk(Join(fs).value);
      && (j == |fs| ==> w == Scanned(Chunks(fs), HDR_SIZE + |Bodies(fs)|, false))
      && (j != |fs| ==>
        j < |fs| && Ragged(fs[j]) &&
        w == Scanned(Chunks(fs[..j + 1]), HDR_SIZE + |Bodies(fs[..j + 1])| + Missing(fs[j]), true))
  {
    hide Run, Scan, Chunks, Bodies, ChunkAt, Closed, Ragged;
    var j, x := FirstRagged(fs), Join(fs).value;
    var e := HDR_SIZE + |Bodies(fs)|;
    FirstRaggedSpec(fs);
    ClosedSplit(fs[0][..HDR_SIZE], Bodies(fs), Chunks(fs));
    if j == |fs| {
      JoinRun(fs, x);
      NotDc(x, e);
      RunIsScan(x, HDR_SIZE, Chunks(fs), e, NO_LIMIT);
    } else {
      RaggedWalk(fs, j, x);
    }
  }

  lemma NotDc(x: seq<byte>, at: nat)
    requires at + 8 <= |x| && !Tag(x, at, DC)
    ensures !ChunkAt(x, at, NO_LIMIT) && !PadCut(x, at) && CutAt(x, at) == !Follower(x, at)
  {
  }

  lemma RaggedWalk(fs: seq<seq<byte>>, j: nat, x: seq<byte>)
    requires Clips(fs) && j < |fs| && (forall i :: 0 <= i < j ==> !Ragged(fs[i])) && Ragged(fs[j])
    requires var e := HDR_SIZE + |Bodies(fs)|;
      Holds(x, HDR_SIZE, Bodies(fs)) && e + 8 + 16 * |Chunks(fs)| == |x| && Tag(x, e, IDX1)
    ensures Walk(x) == Scanned(Chunks(fs[..j + 1]), HDR_SIZE + |Bodies(fs[..j + 1])| + Missing(fs[j]), true)
  {
    hide Run, Scan, Chunks, Bodies, ChunkAt, Ragged, Follower, Missing, Moved;
    var pre, post, here := fs[..j], fs[j + 1..], fs[..j + 1];
    assert here == pre + [fs[j]] && fs == here + post;
    BodiesAppend(here, post);
    ChunksAppend(here, post);
    HoldsParts(x, HDR_SIZE, Bodies(here), Bodies(post));
    var at := HDR_SIZE + |Bodies(here)|;
    var q := at + Missing(fs[j]);
    RaggedRun(pre, fs[j], x);
    assert |x| >= at + |Bodies(post)| + 8 + 16;
    if Bodies(post) != [] {
      BodiesHead(post);
      HeaderCopied(x, at, Bodies(post), 0);
    }
    ShiftedStops(x, at, Missing(fs[j]));
    NotDc(x, q);
    RunIsScan(x, HDR_SIZE, Chunks(here), q, NO_LIMIT);
  }

  // ---- payloads ----

  function PayloadAt(f: seq<byte>, c: Chunk): seq<byte> {
    if c.off + 8 + c.size <= |f| then Payload(f, c) else []
  }

  function Payloads(f: seq<byte>, cs: seq<Chunk>): (r: seq<seq<byte>>)
    ensures |r| == |cs|
  {
    seq(|cs|, i requires 0 <= i < |cs| => PayloadAt(f, cs[i]))
  }

  /** Every segment's payloads, in order. */
  function AllPayloads(fs: seq<seq<byte>>): seq<seq<byte>> {
    if fs == [] then [] else
      var last := fs[|fs| - 1];
      AllPayloads(fs[..|fs| - 1]) + Payloads(last, Walk(last).chunks)
  }

  lemma PayloadsAppend(x: seq<byte>, cs: seq<Chunk>, ds: seq<Chunk>)
    ensures Payloads(x, cs + ds) == Payloads(x, cs) + Payloads(x, ds)
  {
  }

  lemma SegmentPayloads(f: seq<byte>, x: seq<byte>, mid: nat)
    requires |f| >= HDR_SIZE && Holds(x, mid, Body(f))
    ensures Payloads(x, Moved(Walk(f).chunks, HDR_SIZE, mid)) == Payloads(f, Walk(f).chunks)
  {
    hide Scan, Walk, Body, Get32;
    var w := Walk(f);
    var cs := Moved(w.chunks, HDR_SIZE, mid);
    forall i | 0 <= i < |cs| ensures PayloadAt(x, cs[i]) == PayloadAt(f, w.chunks[i]) {
      SegmentPayload(f, x, mid, i);
    }
  }

  lemma SegmentPayload(f: seq<byte>, x: seq<byte>, mid: nat, i: nat)
    requires |f| >= HDR_SIZE && Holds(x, mid, Body(f)) && i < |Walk(f).chunks|
    ensures var c := Walk(f).chunks[i];
      PayloadAt(x, Chunk(Since(c.off, HDR_SIZE) + mid, c.size)) == PayloadAt(f, c)
  {
    hide Scan, Walk, Get32, Body, Holds, Whole;
    var w, c := Walk(f), Walk(f).chunks[i];
    BodyHeld(f, x, mid);
    WalkChunks(f, i);
    SliceMoved(x, mid, f, HDR_SIZE, w.end, c.off + 8 - HDR_SIZE, c.size);
  }

  lemma {:induction false} JoinedPayloads(fs: seq<seq<byte>>, x: seq<byte>)
    requires Clips(fs) && Holds(x, HDR_SIZE, Bodies(fs))
    ensures Payloads(x, Chunks(fs)) == AllPayloads(fs)
    decreases |fs|
  {
    hide Walk, Moved, Body, Payloads, Holds;
    if fs == [] {
      assert |Payloads(x, [])| == 0;
    } else {
      var init, last := fs[..|fs| - 1], fs[|fs| - 1];
      var mid := HDR_SIZE + |Bodies(init)|;
      HoldsParts(x, HDR_SIZE, Bodies(init), Body(last));
      JoinedPayloads(init, x);
      SegmentPayloads(last, x, mid);
      PayloadsAppend(x, Chunks(init), Moved(Walk(last).chunks, HDR_SIZE, mid));
    }
  }

  /** No segment after the first ragged one holds a chunk. */
  predicate Joinable(fs: seq<seq<byte>>) {
    forall k :: FirstRagged(fs) < k < |fs| ==> Walk(fs[k]).chunks == []
  }

  lemma {:induction false} NoChunks(fs: seq<seq<byte>>)
    ensures Chunks(fs) == [] <==> forall k :: 0 <= k < |fs| ==> Walk(fs[k]).chunks == []
    decreases |fs|
  {
    hide Walk;
    if fs != [] {
      NoChunks(fs[..|fs| - 1]);
      var last := fs[|fs| - 1];
      assert |Moved(Walk(last).chunks, HDR_SIZE, HDR_SIZE + |Bodies(fs[..|fs| - 1])|)| == |Walk(last).chunks|;
      if forall k :: 0 <= k < |fs| ==> Walk(fs[k]).chunks == [] {
        assert forall k :: 0 <= k < |fs| - 1 ==> fs[..|fs| - 1][k] == fs[k];
      } else {
        var k :| 0 <= k < |fs| && Walk(fs[k]).chunks != [];
        assert k < |fs| - 1 ==> fs[..|fs| - 1][k] == fs[k];
      }
    }
  }

  lemma JoinableChunks(fs: seq<seq<byte>>)
    ensures var j := FirstRagged(fs);
      j < |fs| ==> Chunks(fs[..j + 1]) <= Chunks(fs) && (Joinable(fs) <==> Chunks(fs[..j + 1]) == Chunks(fs))
  {
    hide Walk, Chunks, Bodies, Moved, FirstRagged;
    var j := FirstRagged(fs);
    if j < |fs| {
      var here, post := fs[..j + 1], fs[j + 1..];
      assert fs == here + post;
      ChunksAppend(here, post);
      NoChunks(post);
      assert |Chunks(fs)| == |Chunks(here)| + |Chunks(post)|;
      assert forall k :: j < k < |fs| ==> fs[k] == post[k - j - 1];
      assert forall k :: 0 <= k < |post| ==> post[k] == fs[k + j + 1];
    }
  }

  /** Walking the joined file gives the segments' payloads one after another, exactly when they are joinable. */
  lemma JoinIsHomomorphism(fs: seq<seq<byte>>)
    requires Clips(fs) && Join(fs).Ok?
    ensures var x := Join(fs).value; Payloads(x, Walk(x).chunks) == AllPayloads(fs) <==> Joinable(fs)
  {
    hide Run, Scan, Chunks, Bodies, ChunkAt, Closed, Walk, Payloads, AllPayloads, Ragged, Joinable, FirstRagged;
    var x := Join(fs).value;
    JoinWalk(fs);
    ClosedSplit(fs[0][..HDR_SIZE], Bodies(fs), Chunks(fs));
    JoinedPayloads(fs, x);
    JoinableChunks(fs);
    FirstRaggedSpec(fs);
    assert FirstRagged(fs) == |fs| ==> Joinable(fs) by {
      NothingRagged(fs);
    }
  }

  lemma NothingRagged(fs: seq<seq<byte>>)
    ensures FirstRagged(fs) >= |fs| ==> Joinable(fs)
  {
  }

  /** Entry `i` of a join's index names the chunk the walk finds as number `i`. */
  lemma JoinIndexNames(fs: seq<seq<byte>>, i: nat)
    requires Clips(fs) && Join(fs).Ok? && i < |Walk(Join(fs).value).chunks|
    ensures var x, e := Join(fs).value, HDR_SIZE + |Bodies(fs)| + 8 + 16 * i;
      && e + 16 <= |x| && Tag(x, e, DC)
      && MOVI_FCC + Get32(x, e + 8) == Walk(x).chunks[i].off && Get32(x, e + 12) == Walk(x).chunks[i].size
  {
    hide Run, Scan, Chunks, Bodies, Closed, Walk, FirstRagged, Get32, Tag, Joinable, Ragged;
    JoinWalk(fs);
    JoinableChunks(fs);
    FirstRaggedSpec(fs);
    ChunksInside(fs, i);
    ClosedEntry(fs[0][..HDR_SIZE], Bodies(fs), Chunks(fs), i);
  }

  // ---- grouping ----

  lemma JoinBody(ys: seq<seq<byte>>)
    requires Clips(ys) && Join(ys).Ok?
    ensures var g, j := Join(ys).value, FirstRagged(ys);
      && |g| >= HDR_SIZE
      && (j == |ys| ==> Body(g) == Bodies(ys) && Walk(g).chunks == Chunks(ys))
      && (j != |ys| ==> |Body(g)| + 16 * |Walk(g).chunks| != |Bodies(ys)| + 16 * |Chunks(ys)|)
  {
    hide Run, Scan, Chunks, Bodies, Closed, Walk, FirstRagged, Ragged, Missing;
    var g, j := Join(ys).value, FirstRagged(ys);
    JoinWalk(ys);
    BodyEnd(g);
    if j == |ys| {
      ClosedSplit(ys[0][..HDR_SIZE], Bodies(ys), Chunks(ys));
    } else {
      var here, post := ys[..j + 1], ys[j + 1..];
      assert ys == here + post;
      BodiesAppend(here, post);
      ChunksAppend(here, post);
      assert |Bodies(ys)| == |Bodies(here)| + |Bodies(post)| && |Chunks(ys)| == |Chunks(here)| + |Chunks(post)|;
      if Bodies(post) != [] {
        BodiesHead(post);
      }
    }
  }

  lemma JoinFacts(ys: seq<seq<byte>>)
    requires Clips(ys) && Join(ys).Ok?
    ensures var g := Join(ys).value;
      |g| >= HDR_SIZE && FactsOf(g) == FactsOf(ys[0]) && forall i :: 0 <= i < HDR_SIZE && !Patched(i) ==> g[i] == ys[0][i]
  {
    hide Closed, PatchHeader, Chunks, Bodies;
    ClosedRiff(ys[0][..HDR_SIZE], Bodies(ys), Chunks(ys));
    ClosedSplit(ys[0][..HDR_SIZE], Bodies(ys), Chunks(ys));
  }

  /** The bodies and chunks of a list with the group `ys` in the middle. */
  lemma Middle(xs: seq<seq<byte>>, ys: seq<seq<byte>>, zs: seq<seq<byte>>)
    ensures Bodies(xs + ys + zs) == Bodies(xs) + Bodies(ys) + Bodies(zs)
    ensures Chunks(xs + ys + zs) == Chunks(xs) + Moved(Chunks(ys), HDR_SIZE, HDR_SIZE + |Bodies(xs)|)
                                    + Moved(Chunks(zs), HDR_SIZE, HDR_SIZE + |Bodies(xs)| + |Bodies(ys)|)
  {
    hide Bodies, Chunks, Moved;
    BodiesAppend(xs, ys);
    BodiesAppend(xs + ys, zs);
    ChunksAppend(xs, ys);
    ChunksAppend(xs + ys, zs);
  }

  /** A single segment as a group. */
  lemma Single(g: seq<byte>)
    requires |g| >= HDR_SIZE
    ensures Bodies([g]) == Body(g) && Chunks([g]) == Walk(g).chunks
  {
    hide Walk, Body, Moved;
    assert [g][..0] == [];
    MovedNot(g);
  }

  lemma MovedNot(g: seq<byte>)
    requires |g| >= HDR_SIZE
    ensures Moved(Walk(g).chunks, HDR_SIZE, HDR_SIZE) == Walk(g).chunks
  {
    hide Walk;
    var cs := Walk(g).chunks;
    forall i | 0 <= i < |cs| ensures Moved(cs, HDR_SIZE, HDR_SIZE)[i] == cs[i] {
      WalkChunks(g, i);
    }
  }

  predicate NoneRagged(fs: seq<seq<byte>>) {
    forall i :: 0 <= i < |fs| ==> !Ragged(fs[i])
  }

  /** The group's join has the sizes and, when nothing in it is ragged, the contents of the group. */
  lemma GroupParts(xs: seq<seq<byte>>, ys: seq<seq<byte>>, zs: seq<seq<byte>>, g: seq<byte>)
    requires Clips(ys) && Join(ys) == Ok(g)
    ensures NoneRagged(ys) ==>
      Bodies(xs + [g] + zs) == Bodies(xs + ys + zs) && Chunks(xs + [g] + zs) == Chunks(xs + ys + zs)
    ensures !NoneRagged(ys) ==>
      |Bodies(xs + [g] + zs)| + 16 * |Chunks(xs + [g] + zs)| != |Bodies(xs + ys + zs)| + 16 * |Chunks(xs + ys + zs)|
  {
    hide Bodies, Chunks, Moved, Body, Walk, Ragged, FirstRagged, Join;
    FirstRaggedSpec(ys);
    JoinBody(ys);
    Single(g);
    Middle(xs, ys, zs);
    Middle(xs, [g], zs);
  }

  lemma GroupFacts(xs: seq<seq<byte>>, ys: seq<seq<byte>>, zs: seq<seq<byte>>, g: seq<byte>)
    requires Clips(xs + ys + zs) && SameFacts(xs + ys + zs) && ys != []
    requires Clips(ys) && Join(ys) == Ok(g)
    ensures Clips(xs + [g] + zs) && SameFacts(xs + [g] + zs)
  {
    hide Join, FactsOf;
    var flat, grouped := xs + ys + zs, xs + [g] + zs;
    JoinFacts(ys);
    assert ys[0] == flat[|xs|];
    forall i | 0 <= i < |grouped| ensures |grouped[i]| >= HDR_SIZE && FactsOf(grouped[i]) == FactsOf(flat[0]) {
      if i < |xs| {
        assert grouped[i] == flat[i];
      } else if i > |xs| {
        assert grouped[i] == flat[i + |ys| - 1];
      }
    }
  }

  lemma GroupJoins(xs: seq<seq<byte>>, ys: seq<seq<byte>>, zs: seq<seq<byte>>)
    requires Clips(xs + ys + zs) && Join(xs + ys + zs).Ok? && ys != []
    ensures Clips(ys) && Join(ys).Ok?
  {
    hide Bodies, Chunks, FactsOf, Moved, Closed;
    var flat := xs + ys + zs;
    forall i | 0 <= i < |ys| ensures ys[i] == flat[|xs| + i] {
    }
    Middle(xs, ys, zs);
  }

  /**
   * Joining a group of segments first changes nothing, whatever stands before and after the group, exactly
   * when no segment of the group is ragged. Associativity is the case of one segment beside the group.
   */
  lemma JoinIsAssociative(xs: seq<seq<byte>>, ys: seq<seq<byte>>, zs: seq<seq<byte>>)
    requires Clips(xs + ys + zs) && Join(xs + ys + zs).Ok? && ys != []
    ensures Clips(ys) && Join(ys).Ok? && Clips(xs + [Join(ys).value] + zs)
    ensures Join(xs + [Join(ys).value] + zs) == Join(xs + ys + zs) <==> NoneRagged(ys)
  {
    hide Bodies, Chunks, FactsOf, Moved, Closed, NoneRagged;
    GroupJoins(xs, ys, zs);
    var g, flat := Join(ys).value, xs + ys + zs;
    var grouped := xs + [g] + zs;
    GroupParts(xs, ys, zs, g);
    GroupFacts(xs, ys, zs, g);
    if NoneRagged(ys) {
      JoinFacts(ys);
      assert xs != [] ==> grouped[0] == flat[0];
      assert xs == [] ==> grouped[0] == g && flat[0] == ys[0];
      ClosedSameHead(grouped[0][..HDR_SIZE], flat[0][..HDR_SIZE], Bodies(flat), Chunks(flat));
    }
  }
}
