/**
 * A recording as the card sees it: single bytes written in order. What each operation of the writer sends is
 * a function of the operations so far; a power cut keeps a prefix.
 */
module AviTrace {
  import opened Bytes
  import opened AviFormat
  import opened AviWriter

  datatype Poke = Poke(at: nat, b: byte)

  function Pokes(at: nat, d: seq<byte>): (r: seq<Poke>)
    ensures |r| == |d|
  {
    seq(|d|, i requires 0 <= i < |d| => Poke(at + i, d[i]))
  }

  function Apply(f: seq<byte>, t: seq<Poke>): (r: seq<byte>) {
    if t == [] then f else Overlay(Apply(f, t[..|t| - 1]), t[|t| - 1].at, [t[|t| - 1].b])
  }

  lemma PokesAppend(at: nat, a: seq<byte>, b: seq<byte>)
    ensures Pokes(at, a + b) == Pokes(at, a) + Pokes(at + |a|, b)
  {
  }

  lemma PokesTake(at: nat, d: seq<byte>, j: nat)
    requires j <= |d|
    ensures Pokes(at, d)[..j] == Pokes(at, d[..j])
  {
  }

  lemma {:induction false} ApplyAppend(f: seq<byte>, s: seq<Poke>, t: seq<Poke>)
    ensures Apply(f, s + t) == Apply(Apply(f, s), t)
    decreases |t|
  {
    if t == [] {
      assert s + t == s;
    } else {
      assert (s + t)[..|s + t| - 1] == s + t[..|t| - 1];
      ApplyAppend(f, s, t[..|t| - 1]);
    }
  }

  /** A block written byte by byte at or before the end of the file. */
  lemma {:induction false} ApplyPokes(f: seq<byte>, at: nat, d: seq<byte>)
    requires at <= |f|
    ensures Apply(f, Pokes(at, d)) == Overlay(f, at, d)
    decreases |d|
  {
    if d == [] {
      assert Overlay(f, at, d) == f;
    } else {
      var n := |d| - 1;
      PokesTake(at, d, n);
      ApplyPokes(f, at, d[..n]);
      assert Pokes(at, d)[n] == Poke(at + n, d[n]);
    }
  }

  /** A frame as it is stored: the JPEG and the bytes that pad it to a multiple of four. */
  datatype Stored = Stored(payload: seq<byte>, pad: seq<byte>) {
    predicate Padded() {
      |pad| == Pad4(|payload|)
    }
  }

  datatype Op = Frame(c: Stored) | Refresh

  function ChunkHead(len: nat): (r: seq<byte>)
    ensures |r| == 8
  {
    DC + Put32(len)
  }

  function ChunkBytes(c: Stored): (r: seq<byte>)
    ensures c.Padded() ==> |r| == Whole(|c.payload|)
  {
    ChunkHead(|c.payload|) + c.payload + c.pad
  }

  function Movi(cs: seq<Stored>): seq<byte> {
    if cs == [] then [] else Movi(cs[..|cs| - 1]) + ChunkBytes(cs[|cs| - 1])
  }

  function ChunksOf(cs: seq<Stored>): (r: seq<Chunk>)
    ensures |r| == |cs|
  {
    if cs == [] then []
    else ChunksOf(cs[..|cs| - 1]) + [Chunk(HDR_SIZE + |Movi(cs[..|cs| - 1])|, |cs[|cs| - 1].payload|)]
  }

  /** The frames a list of operations stores. */
  function Done(ops: seq<Op>): seq<Stored> {
    if ops == [] then []
    else
      var init, last := Done(ops[..|ops| - 1]), ops[|ops| - 1];
      if last.Frame? then init + [last.c] else init
  }

  /** Where the next chunk goes. */
  function End(done: seq<Stored>): nat {
    HDR_SIZE + |Movi(done)|
  }

  /** The four running fields, in the order they are patched. */
  function RunningPokes(done: seq<Stored>, riff: nat): seq<Poke> {
    Pokes(OFF_RIFFSZ, Put32(riff)) + Pokes(OFF_TOTALFRAMES, Put32(|done|)) + Pokes(OFF_STRH_LEN, Put32(|done|))
    + Pokes(OFF_MOVISZ, Put32(|Movi(done)| + 4))
  }

  function OpPokes(op: Op, done: seq<Stored>): seq<Poke> {
    match op
    case Frame(c) => Pokes(End(done), ChunkBytes(c))
    case Refresh => RunningPokes(done, HDR_SIZE - 8 + |Movi(done)|)
  }

  /** The header avi_start writes describes a valid empty movie and promises no index. */
  const EMPTY: Fields := Fields(HDR_SIZE - 8, FLAG_INTERLEAVED, 0, 0, 4)

  function Trace(g: Geometry, ops: seq<Op>): seq<Poke>
    requires g.Valid()
  {
    if ops == [] then Pokes(0, Header(g, EMPTY))
    else Trace(g, ops[..|ops| - 1]) + OpPokes(ops[|ops| - 1], Done(ops[..|ops| - 1]))
  }

  /** The index closing writes: as many entries as were staged. */
  function FinalIndex(done: seq<Stored>, cap: nat): (r: seq<byte>)
    ensures |r| == 8 + 16 * if |done| < cap then |done| else cap
  {
    Index(ChunksOf(done)[..if |done| < cap then |done| else cap])
  }

  /** What closing sends: with an index buffer, the index, the flag that promises it, then the running fields. */
  function FinishPokes(done: seq<Stored>, indexed: bool, cap: nat): seq<Poke> {
    if indexed then
      Pokes(End(done), FinalIndex(done, cap)) + Pokes(OFF_FLAGS, Put32(FLAG_INTERLEAVED + FLAG_HASINDEX))
      + RunningPokes(done, HDR_SIZE - 8 + |Movi(done)| + |FinalIndex(done, cap)|)
    else RunningPokes(done, HDR_SIZE - 8 + |Movi(done)|)
  }

  /** The running fields go out as riff size, frames, stream length and movi size, each lowest byte first. */
  lemma RunningOrder(done: seq<Stored>, riff: nat, i: nat)
    requires i < 4
    ensures var r := RunningPokes(done, riff);
      && |r| == 16
      && r[i] == Poke(4 + i, Put32(riff)[i]) && r[4 + i] == Poke(48 + i, Put32(|done|)[i])
      && r[8 + i] == Poke(140 + i, Put32(|done|)[i]) && r[12 + i] == Poke(216 + i, Put32(|Movi(done)| + 4)[i])
  {
    hide Put32, Movi;
  }

  /** Closing sends the index first, then the flag that there is one, then the running fields with the index counted. */
  lemma ClosingOrder(done: seq<Stored>, cap: nat)
    ensures var f, x := FinishPokes(done, true, cap), FinalIndex(done, cap);
      && f[..|x|] == Pokes(224 + |Movi(done)|, x)
      && f[|x|..|x| + 4] == [Poke(44, 0x10), Poke(45, 1), Poke(46, 0), Poke(47, 0)]
      && f[|x| + 4..] == RunningPokes(done, 224 + |Movi(done)| + |x| - 8)
    ensures FinishPokes(done, false, cap) == RunningPokes(done, 224 + |Movi(done)| - 8)
  {
    hide Movi, FinalIndex;
    var x := FinalIndex(done, cap);
    var a, b, c := Pokes(End(done), x), Pokes(OFF_FLAGS, Put32(0x110)), RunningPokes(done, HDR_SIZE - 8 + |Movi(done)| + |x|);
    assert FinishPokes(done, true, cap) == a + b + c;
    assert (a + b + c)[..|x|] == a && (a + b + c)[|x|..|x| + 4] == b && (a + b + c)[|x| + 4..] == c;
    LittleEndian(0x10, 1, 0, 0);
  }

  lemma TraceSnoc(g: Geometry, ops: seq<Op>, op: Op)
    requires g.Valid()
    ensures Trace(g, ops + [op]) == Trace(g, ops) + OpPokes(op, Done(ops))
    ensures Done(ops + [op]) == if op.Frame? then Done(ops) + [op.c] else Done(ops)
  {
    assert (ops + [op])[..|ops|] == ops;
  }

  lemma MoviSnoc(cs: seq<Stored>, c: Stored)
    ensures Movi(cs + [c]) == Movi(cs) + ChunkBytes(c)
    ensures ChunksOf(cs + [c]) == ChunksOf(cs) + [Chunk(End(cs), |c.payload|)]
  {
    assert (cs + [c])[..|cs|] == cs;
  }

  lemma {:induction false} MoviLength(cs: seq<Stored>)
    ensures |Movi(cs)| >= 8 * |cs|
    decreases |cs|
  {
    if cs != [] {
      MoviLength(cs[..|cs| - 1]);
    }
  }

  /** Header, payload and pad written one after another are the chunk's bytes. */
  lemma ChunkPokes(at: nat, c: Stored)
    ensures Pokes(at, ChunkBytes(c)) ==
      Pokes(at, ChunkHead(|c.payload|)) + Pokes(at + 8, c.payload) + Pokes(at + 8 + |c.payload|, c.pad)
  {
    hide Pokes;
    PokesAppend(at, ChunkHead(|c.payload|) + c.payload, c.pad);
    PokesAppend(at, ChunkHead(|c.payload|), c.payload);
  }

  function Zeros(n: nat): (r: seq<byte>)
    ensures |r| == n && forall i :: 0 <= i < n ==> r[i] == 0
  {
    seq(n, _ => 0)
  }
}
