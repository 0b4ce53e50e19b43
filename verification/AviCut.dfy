/**
 * The card after a power cut. Whatever the cut, the file is a header that differs from a whole one in the
 * patched fields only, the completed chunks, the part of the write in flight that arrived, and old bytes.
 */
module AviCut {
  import opened Bytes
  import opened AviFormat
  import opened AviWriter
  import opened AviTrace

  /** What the file held before, from offset `at` on. */
  function Tail(stale: seq<byte>, at: nat): seq<byte> {
    if at < |stale| then stale[at..] else []
  }

  /** Everything behind the header. */
  function Rest(done: seq<Stored>, part: seq<byte>, stale: seq<byte>): seq<byte> {
    Movi(done) + (part + Tail(stale, End(done) + |part|))
  }

  function Image(hdr: seq<byte>, done: seq<Stored>, part: seq<byte>, stale: seq<byte>): seq<byte> {
    hdr + Rest(done, part, stale)
  }

  /** A header of this recording, whatever its patched fields hold. */
  predicate HeaderLike(g: Geometry, hdr: seq<byte>)
    requires g.Valid()
  {
    |hdr| == HDR_SIZE && forall i :: 0 <= i < HDR_SIZE && !Patched(i) ==> hdr[i] == Header(g, EMPTY)[i]
  }

  /** No running field is larger than its bound, and the index is promised only if the bound allows it. */
  predicate Within(hdr: seq<byte>, b: Fields)
    requires |hdr| == HDR_SIZE
  {
    && Get32(hdr, OFF_RIFFSZ) <= b.riff && Get32(hdr, OFF_TOTALFRAMES) <= b.total
    && Get32(hdr, OFF_STRH_LEN) <= b.length && Get32(hdr, OFF_MOVISZ) <= b.movi
    && (Get32(hdr, OFF_FLAGS) == 0x100 || (b.flags == 0x110 && Get32(hdr, OFF_FLAGS) == 0x110))
  }

  /** The bounds that the completed chunks set. */
  function Bounds(done: seq<Stored>): Fields {
    Fields(HDR_SIZE - 8 + |Movi(done)|, 0x100, |done|, |done|, |Movi(done)| + 4)
  }

  // ---- one byte at a time ----

  /** Little-endian order makes a torn patch safe: a prefix of a larger value never exceeds it. */
  lemma TornField(hdr: seq<byte>, at: nat, p: seq<byte>, j: nat)
    requires at + 4 <= |hdr| && |p| == 4 && j <= 4 && Get32(hdr, at) <= Get32(p, 0)
    ensures Get32(Overlay(hdr, at, p[..j]), at) <= Get32(p, 0)
  {
    hide Get32;
    var x := TornBytes(hdr, at, p, j);
    SumIsGet(p, 0);
    SumIsGet(hdr, at);
    SumIsGet(x, at);
    MixedBytes(p[0] as nat, p[1] as nat, p[2] as nat, p[3] as nat,
               hdr[at] as nat, hdr[at + 1] as nat, hdr[at + 2] as nat, hdr[at + 3] as nat, j);
  }

  lemma SumIsGet(f: seq<byte>, at: nat)
    requires at + 4 <= |f|
    ensures Get32(f, at) == Sum(f[at] as nat, f[at + 1] as nat, f[at + 2] as nat, f[at + 3] as nat)
  {
  }

  lemma TornBytes(hdr: seq<byte>, at: nat, p: seq<byte>, j: nat) returns (x: seq<byte>)
    requires at + 4 <= |hdr| && |p| == 4 && j <= 4
    ensures x == Overlay(hdr, at, p[..j]) && |x| == |hdr|
    ensures x[at] == (if j > 0 then p[0] else hdr[at]) && x[at + 1] == if j > 1 then p[1] else hdr[at + 1]
    ensures x[at + 2] == (if j > 2 then p[2] else hdr[at + 2]) && x[at + 3] == if j > 3 then p[3] else hdr[at + 3]
  {
    x := Overlay(hdr, at, p[..j]);
  }

  function Sum(b0: nat, b1: nat, b2: nat, b3: nat): nat {
    b0 + 0x100 * b1 + 0x1_0000 * b2 + 0x100_0000 * b3
  }

  /** The low bytes of the larger value under the high bytes of the smaller one. */
  lemma MixedBytes(v0: nat, v1: nat, v2: nat, v3: nat, o0: nat, o1: nat, o2: nat, o3: nat, j: nat)
    requires v0 < 256 && v1 < 256 && v2 < 256 && v3 < 256 && o0 < 256 && o1 < 256 && o2 < 256 && o3 < 256
    requires Sum(o0, o1, o2, o3) <= Sum(v0, v1, v2, v3) && j <= 4
    ensures Sum(if j > 0 then v0 else o0, if j > 1 then v1 else o1, if j > 2 then v2 else o2, if j > 3 then v3 else o3)
         <= Sum(v0, v1, v2, v3)
  {
    if j == 1 {
      assert o1 + 0x100 * o2 + 0x1_0000 * o3 <= v1 + 0x100 * v2 + 0x1_0000 * v3;
    } else if j == 2 {
      assert o2 + 0x100 * o3 <= v2 + 0x100 * v3;
    } else if j == 3 {
      assert o3 <= v3;
    }
  }

  /** A field and the value it is patched to, as `b` bounds it. */
  predicate Sets(b: Fields, at: nat, v: nat) {
    || (at == OFF_RIFFSZ && v == b.riff) || (at == OFF_TOTALFRAMES && v == b.total)
    || (at == OFF_STRH_LEN && v == b.length) || (at == OFF_MOVISZ && v == b.movi)
    || (at == OFF_FLAGS && v == 0x110 == b.flags)
  }

  lemma OtherField(hdr: seq<byte>, at: nat, d: seq<byte>, o: nat)
    requires at + |d| <= |hdr| && o + 4 <= |hdr| && (o + 4 <= at || at + |d| <= o)
    ensures Get32(Overlay(hdr, at, d), o) == Get32(hdr, o)
  {
    hide Get32;
    var x := Overlay(hdr, at, d);
    SumIsGet(hdr, o);
    SumIsGet(x, o);
  }

  lemma PatchTorn(hdr: seq<byte>, at: nat, v: nat, j: nat, b: Fields)
    requires |hdr| == HDR_SIZE && Within(hdr, b) && Sets(b, at, v) && j <= 4 && v < TWO_32
    ensures var x := Overlay(hdr, at, Put32(v)[..j]);
      |x| == HDR_SIZE && Within(x, b) && forall i :: 0 <= i < HDR_SIZE && !Patched(i) ==> x[i] == hdr[i]
  {
    hide Put32, Get32;
    var d := Put32(v)[..j];
    forall o | o in {OFF_RIFFSZ, OFF_FLAGS, OFF_TOTALFRAMES, OFF_STRH_LEN, OFF_MOVISZ} && o != at
      ensures Get32(Overlay(hdr, at, d), o) == Get32(hdr, o)
    {
      OtherField(hdr, at, d, o);
    }
    if at == OFF_FLAGS {
      FlagTorn(hdr, j);
    } else {
      GetPut32(v);
      TornField(hdr, at, Put32(v), j);
    }
  }

  /** The flag's two values differ in one byte. */
  lemma FlagTorn(hdr: seq<byte>, j: nat)
    requires |hdr| == HDR_SIZE && j <= 4 && (Get32(hdr, OFF_FLAGS) == 0x100 || Get32(hdr, OFF_FLAGS) == 0x110)
    ensures var v := Get32(Overlay(hdr, OFF_FLAGS, Put32(0x110)[..j]), OFF_FLAGS); v == 0x110 || v == Get32(hdr, OFF_FLAGS)
  {
    assert Put32(0x110) == [0x10, 0x01, 0, 0];
    assert hdr[45] == 1 && hdr[46] == 0 && hdr[47] == 0;
  }

  /** Fields patched one after another. */
  datatype Patch = Patch(at: nat, v: nat)

  function PatchPokes(ps: seq<Patch>): seq<Poke> {
    if ps == [] then [] else PatchPokes(ps[..|ps| - 1]) + Pokes(ps[|ps| - 1].at, Put32(ps[|ps| - 1].v))
  }

  /** Any prefix of the patches keeps the header within bounds, and touches nothing behind it. */
  lemma {:induction false} PatchPrefix(g: Geometry, hdr: seq<byte>, rest: seq<byte>, ps: seq<Patch>, j: nat, b: Fields) returns (x: seq<byte>)
    requires g.Valid() && HeaderLike(g, hdr) && Within(hdr, b) && j <= |PatchPokes(ps)|
    requires forall i :: 0 <= i < |ps| ==> Sets(b, ps[i].at, ps[i].v) && ps[i].v < TWO_32
    ensures Apply(hdr + rest, PatchPokes(ps)[..j]) == x + rest && HeaderLike(g, x) && Within(x, b)
    decreases |ps|
  {
    hide Pokes, Get32, Within;
    if ps == [] {
      x := hdr;
    } else {
      var init, last := ps[..|ps| - 1], ps[|ps| - 1];
      var n := |PatchPokes(init)|;
      if j <= n {
        x := PatchPrefix(g, hdr, rest, init, j, b);
        assert PatchPokes(ps)[..j] == PatchPokes(init)[..j];
      } else {
        var y := PatchPrefix(g, hdr, rest, init, n, b);
        var d := Put32(last.v)[..j - n];
        PokesTake(last.at, Put32(last.v), j - n);
        assert PatchPokes(ps)[..j] == PatchPokes(init)[..n] + Pokes(last.at, d);
        ApplyAppend(hdr + rest, PatchPokes(init)[..n], Pokes(last.at, d));
        ApplyPokes(y + rest, last.at, d);
        PatchTorn(y, last.at, last.v, j - n, b);
        x := Overlay(y, last.at, d);
        OverlayFront(y, rest, last.at, d);
      }
    }
  }

  function RunningPatches(done: seq<Stored>, riff: nat): (r: seq<Patch>)
    ensures |r| == 4
  {
    [Patch(OFF_RIFFSZ, riff), Patch(OFF_TOTALFRAMES, |done|), Patch(OFF_STRH_LEN, |done|),
     Patch(OFF_MOVISZ, |Movi(done)| + 4)]
  }

  lemma PatchSnoc(ps: seq<Patch>, p: Patch)
    ensures PatchPokes(ps + [p]) == PatchPokes(ps) + Pokes(p.at, Put32(p.v))
  {
    assert (ps + [p])[..|ps|] == ps;
  }

  lemma RunningArePatches(ps: seq<Patch>, done: seq<Stored>, riff: nat)
    ensures PatchPokes(ps + RunningPatches(done, riff)) == PatchPokes(ps) + RunningPokes(done, riff)
  {
    hide PatchPokes, Pokes, Put32, Movi;
    var n, m := |done|, |Movi(done)| + 4;
    var a, b, c, d := Patch(OFF_RIFFSZ, riff), Patch(OFF_TOTALFRAMES, n), Patch(OFF_STRH_LEN, n), Patch(OFF_MOVISZ, m);
    PatchSnoc(ps, a);
    PatchSnoc(ps + [a], b);
    PatchSnoc(ps + [a] + [b], c);
    PatchSnoc(ps + [a] + [b] + [c], d);
    assert ps + RunningPatches(done, riff) == ps + [a] + [b] + [c] + [d];
  }

  // ---- where a cut falls ----

  /**
   * The completed chunks, what arrived behind them, and the frame it belongs to, if it belongs to one.
   * `indexed` says that what arrived is the whole index.
   */
  datatype Cutoff = Cutoff(done: seq<Stored>, part: seq<byte>, flying: seq<Stored>, indexed: bool)

  function Progress(g: Geometry, ops: seq<Op>, k: nat): Cutoff
    requires g.Valid()
  {
    if ops == [] then Cutoff([], [], [], false)
    else
      var init, op := ops[..|ops| - 1], ops[|ops| - 1];
      var n := |Trace(g, init)|;
      if k <= n then Progress(g, init, k)
      else if op.Frame? && k - n < |ChunkBytes(op.c)| then Cutoff(Done(init), ChunkBytes(op.c)[..k - n], [op.c], false)
      else Cutoff(Done(ops), [], [], false)
  }

  /** A recording that is still running, or is being closed. */
  datatype Recording = Recording(ops: seq<Op>, closing: bool, indexed: bool, cap: nat)

  function FullTrace(g: Geometry, rec: Recording): seq<Poke>
    requires g.Valid()
  {
    Trace(g, rec.ops) + if rec.closing then FinishPokes(Done(rec.ops), rec.indexed, rec.cap) else []
  }

  function CutOf(g: Geometry, rec: Recording, k: nat): Cutoff
    requires g.Valid()
  {
    var n := |Trace(g, rec.ops)|;
    if k <= n then Progress(g, rec.ops, k)
    else if rec.indexed then
      var x := FinalIndex(Done(rec.ops), rec.cap);
      Cutoff(Done(rec.ops), x[..if k - n < |x| then k - n else |x|], [], k - n >= |x|)
    else Cutoff(Done(rec.ops), [], [], false)
  }

  /** The bounds at a cut: the completed chunks, and the index once the whole of it is there. */
  function CutBounds(c: Cutoff): Fields {
    var b := Bounds(c.done);
    if c.indexed then b.(riff := b.riff + |c.part|, flags := 0x110) else b
  }

  lemma {:induction false} ProgressFull(g: Geometry, ops: seq<Op>)
    requires g.Valid() && forall op :: op in ops && op.Frame? ==> op.c.Padded()
    ensures Progress(g, ops, |Trace(g, ops)|) == Cutoff(Done(ops), [], [], false)
    decreases |ops|
  {
    hide Pokes, Header, ChunkBytes, Movi;
    if ops != [] {
      var init, op := ops[..|ops| - 1], ops[|ops| - 1];
      assert |OpPokes(op, Done(init))| == if op.Frame? then |ChunkBytes(op.c)| else 16;
    }
  }

  lemma EmptyImage(g: Geometry, stale: seq<byte>)
    requires g.Valid()
    ensures Apply(stale, Pokes(0, Header(g, EMPTY))) == Image(Header(g, EMPTY), [], [], stale)
    ensures HeaderLike(g, Header(g, EMPTY)) && Within(Header(g, EMPTY), Bounds([]))
  {
    hide Header, Pokes;
    var h := Header(g, EMPTY);
    HeaderFields(g, EMPTY);
    ApplyPokes(stale, 0, h);
    assert Rest([], [], stale) == Tail(stale, HDR_SIZE);
    OverlayTail(stale, 0, h);
    FieldOf(h, h, OFF_RIFFSZ, HDR_SIZE - 8);
    FieldOf(h, h, OFF_FLAGS, 0x100);
    FieldOf(h, h, OFF_TOTALFRAMES, 0);
    FieldOf(h, h, OFF_STRH_LEN, 0);
    FieldOf(h, h, OFF_MOVISZ, 4);
  }

  lemma OverlayTail(stale: seq<byte>, at: nat, d: seq<byte>)
    ensures Overlay(Tail(stale, at), 0, d) == d + Tail(stale, at + |d|)
    ensures at == 0 ==> Tail(stale, at) == stale
  {
  }

  lemma AppendImage(hdr: seq<byte>, done: seq<Stored>, d: seq<byte>, stale: seq<byte>)
    requires |hdr| == HDR_SIZE
    ensures Apply(Image(hdr, done, [], stale), Pokes(End(done), d)) == Image(hdr, done, d, stale)
  {
    hide Movi, Pokes, Apply, Tail;
    var x, front, tail := Image(hdr, done, [], stale), hdr + Movi(done), Tail(stale, End(done));
    assert [] + tail == tail;
    Assoc(hdr, Movi(done), tail);
    ApplyPokes(x, End(done), d);
    OverlayBehind(front, tail, d);
    OverlayTail(stale, End(done), d);
    Assoc(hdr, Movi(done), d + Tail(stale, End(done) + |d|));
  }

  lemma WholeChunk(hdr: seq<byte>, done: seq<Stored>, c: Stored, stale: seq<byte>)
    ensures Image(hdr, done, ChunkBytes(c), stale) == Image(hdr, done + [c], [], stale)
  {
    hide ChunkBytes, Movi, Tail;
    MoviSnoc(done, c);
    var tail := Tail(stale, End(done + [c]));
    Assoc(Movi(done), ChunkBytes(c), tail);
    assert [] + tail == tail;
  }

  lemma PatchImage(g: Geometry, hdr: seq<byte>, done: seq<Stored>, part: seq<byte>, stale: seq<byte>, ps: seq<Patch>, j: nat, b: Fields)
    returns (x: seq<byte>)
    requires g.Valid() && HeaderLike(g, hdr) && Within(hdr, b) && j <= |PatchPokes(ps)|
    requires forall i :: 0 <= i < |ps| ==> Sets(b, ps[i].at, ps[i].v) && ps[i].v < TWO_32
    ensures Apply(Image(hdr, done, part, stale), PatchPokes(ps)[..j]) == Image(x, done, part, stale)
    ensures HeaderLike(g, x) && Within(x, b)
  {
    hide Movi, PatchPokes, Within, Sets, Rest;
    x := PatchPrefix(g, hdr, Rest(done, part, stale), ps, j, b);
  }

  lemma {:induction false} CutBehindHeader(g: Geometry, stale: seq<byte>, ops: seq<Op>, k: nat) returns (hdr: seq<byte>)
    requires g.Valid() && HDR_SIZE <= k <= |Trace(g, ops)| && End(Done(ops)) < TWO_32
    requires forall op :: op in ops && op.Frame? ==> op.c.Padded()
    ensures var c := Progress(g, ops, k);
      Apply(stale, Trace(g, ops)[..k]) == Image(hdr, c.done, c.part, stale)
      && HeaderLike(g, hdr) && Within(hdr, Bounds(c.done))
    decreases |ops|
  {
    hide Pokes, Header, ChunkBytes, Movi, Image, HeaderLike, Within, PatchPokes, RunningPokes, Apply;
    if ops == [] {
      hdr := Header(g, EMPTY);
      assert Trace(g, ops)[..k] == Trace(g, ops);
      EmptyImage(g, stale);
    } else {
      var init, op := ops[..|ops| - 1], ops[|ops| - 1];
      var n, done := |Trace(g, init)|, Done(init);
      LaterEnd(done, op);
      HeaderFirst(g, init);
      if k <= n {
        hdr := CutBehindHeader(g, stale, init, k);
        assert Trace(g, ops)[..k] == Trace(g, init)[..k];
      } else {
        hdr := CutBehindHeader(g, stale, init, n);
        ProgressFull(g, init);
        assert Trace(g, init)[..n] == Trace(g, init);
        assert Trace(g, ops)[..k] == Trace(g, init) + OpPokes(op, done)[..k - n];
        ApplyAppend(stale, Trace(g, init), OpPokes(op, done)[..k - n]);
        hdr := OneMore(g, stale, hdr, done, op, k - n);
      }
    }
  }

  /** The header is the first thing a recording writes. */
  lemma {:induction false} HeaderLeads(g: Geometry, ops: seq<Op>)
    requires g.Valid()
    ensures Pokes(0, Header(g, EMPTY)) <= Trace(g, ops)
    decreases |ops|
  {
    hide Header, Pokes, OpPokes;
    if ops != [] {
      HeaderLeads(g, ops[..|ops| - 1]);
    }
  }

  /** Inside the header's own write: what arrived of it, and old bytes; no frame has been begun. */
  lemma {:induction false} HeaderCut(g: Geometry, stale: seq<byte>, ops: seq<Op>, k: nat)
    requires g.Valid() && k <= HDR_SIZE
    ensures k <= |Trace(g, ops)| && Apply(stale, Trace(g, ops)[..k]) == Begun(g, stale, k)
    ensures Progress(g, ops, k) == Cutoff([], [], [], false)
  {
    hide Header, Pokes, Apply, Trace;
    var h := Header(g, EMPTY);
    HeaderLeads(g, ops);
    assert Trace(g, ops)[..k] == Pokes(0, h)[..k];
    PokesTake(0, h, k);
    ApplyPokes(stale, 0, h[..k]);
    OverlayTail(stale, 0, h[..k]);
    NoProgress(g, ops, k);
  }

  lemma {:induction false} NoProgress(g: Geometry, ops: seq<Op>, k: nat)
    requires g.Valid() && k <= HDR_SIZE
    ensures Progress(g, ops, k) == Cutoff([], [], [], false)
    decreases |ops|
  {
    hide Trace, ChunkBytes;
    if ops != [] {
      HeaderFirst(g, ops[..|ops| - 1]);
      NoProgress(g, ops[..|ops| - 1], k);
    }
  }

  /** The first `k` bytes of the header over old contents. */
  function Begun(g: Geometry, stale: seq<byte>, k: nat): seq<byte>
    requires g.Valid() && k <= HDR_SIZE
  {
    Header(g, EMPTY)[..k] + Tail(stale, k)
  }

  /** The file after any cut while the recording runs. */
  lemma RunningCut(g: Geometry, stale: seq<byte>, ops: seq<Op>, k: nat) returns (hdr: seq<byte>)
    requires g.Valid() && k <= |Trace(g, ops)| && End(Done(ops)) < TWO_32
    requires forall op :: op in ops && op.Frame? ==> op.c.Padded()
    ensures var c, x := Progress(g, ops, k), Apply(stale, Trace(g, ops)[..k]);
      && (k < HDR_SIZE ==> x == Begun(g, stale, k) && c == Cutoff([], [], [], false))
      && (k >= HDR_SIZE ==>
           x == Image(hdr, c.done, c.part, stale) && HeaderLike(g, hdr) && Within(hdr, Bounds(c.done)))
  {
    hide Header, Apply, Trace, Progress, Image, HeaderLike, Within, Bounds;
    if k < HDR_SIZE {
      HeaderCut(g, stale, ops, k);
      hdr := [];
    } else {
      hdr := CutBehindHeader(g, stale, ops, k);
    }
  }

  lemma HeaderFirst(g: Geometry, ops: seq<Op>)
    requires g.Valid()
    ensures |Trace(g, ops)| >= HDR_SIZE
  {
    hide Header, Pokes;
    if ops != [] {
      HeaderFirst(g, ops[..|ops| - 1]);
    }
  }

  lemma LaterEnd(done: seq<Stored>, op: Op)
    ensures op.Frame? ==> End(done) <= End(done + [op.c])
  {
    if op.Frame? {
      MoviSnoc(done, op.c);
    }
  }

  /** A prefix of one more operation. */
  lemma OneMore(g: Geometry, stale: seq<byte>, hdr: seq<byte>, done: seq<Stored>, op: Op, m: nat) returns (x: seq<byte>)
    requires g.Valid() && HeaderLike(g, hdr) && Within(hdr, Bounds(done)) && m <= |OpPokes(op, done)|
    requires End(done) < TWO_32
    ensures HeaderLike(g, x) && Within(x, Bounds(done))
    ensures var y := Apply(Image(hdr, done, [], stale), OpPokes(op, done)[..m]);
      && (op.Refresh? ==> y == Image(x, done, [], stale))
      && (op.Frame? && m < |ChunkBytes(op.c)| ==> y == Image(x, done, ChunkBytes(op.c)[..m], stale))
      && (op.Frame? && m == |ChunkBytes(op.c)| ==>
            y == Image(x, done + [op.c], [], stale) && Within(x, Bounds(done + [op.c])))
  {
    hide Pokes, Header, ChunkBytes, Movi, Image, PatchPokes, RunningPokes, Get32;
    x := hdr;
    match op
    case Frame(c) =>
      PokesTake(End(done), ChunkBytes(c), m);
      AppendImage(hdr, done, ChunkBytes(c)[..m], stale);
      if m == |ChunkBytes(c)| {
        assert ChunkBytes(c)[..m] == ChunkBytes(c);
        WholeChunk(hdr, done, c, stale);
        MoviSnoc(done, c);
      }
    case Refresh =>
      var ps := RunningPatches(done, HDR_SIZE - 8 + |Movi(done)|);
      MoviLength(done);
      RunningArePatches([], done, HDR_SIZE - 8 + |Movi(done)|);
      assert [] + ps == ps && PatchPokes([]) + RunningPokes(done, HDR_SIZE - 8 + |Movi(done)|) == OpPokes(op, done) by {
        NoPatches();
      }
      x := PatchImage(g, hdr, done, [], stale, ps, m, Bounds(done));
  }

  lemma NoPatches()
    ensures PatchPokes([]) == []
  {
  }
}
