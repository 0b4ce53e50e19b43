/** The RAM buffer between the program and the card: two counters that are never reduced, taken modulo 2^32. */
module DlogRing {
  import opened Bytes

  const RING: nat := 32768
  const MAGIC: nat := 0x474F4C44

  /** Subtraction of free-running indices. */
  function Behind(head: u32, tail: u32): u32 {
    (head + TWO_32 - tail) % TWO_32
  }

  /** `n` bytes of the ring's store, from index `at` on. */
  function RingBytes(d: seq<byte>, at: nat, n: nat): (r: seq<byte>)
    requires |d| == RING
    ensures |r| == n
  {
    seq(n, i requires 0 <= i => d[(at + i) % RING])
  }

  lemma {:induction false} ModPeel(a: nat, q: nat)
    ensures (a + q * RING) % RING == a % RING
    decreases q
  {
    if q > 0 {
      ModPeel(a, q - 1);
      assert a + q * RING == (a + (q - 1) * RING) + RING;
    }
  }

  /** The ring's size divides 2^32, so a wrapped index masks like an unwrapped one. */
  lemma WrapMask(a: nat, i: nat)
    ensures (a % TWO_32 + i) % RING == (a + i) % RING
  {
    var q := a / TWO_32;
    assert a == a % TWO_32 + q * TWO_32;
    ModPeel(a % TWO_32 + i, 131072 * q);
    assert 131072 * q * RING == q * TWO_32;
  }

  lemma Distinct(a: nat, b: nat)
    requires a < b < a + RING
    ensures a % RING != b % RING
  {
  }

  lemma WrapTail(d: seq<byte>, at: nat, n: nat)
    requires |d| == RING
    ensures RingBytes(d, at % TWO_32, n) == RingBytes(d, at, n)
  {
    var x, y := RingBytes(d, at % TWO_32, n), RingBytes(d, at, n);
    forall i | 0 <= i < n ensures x[i] == y[i] {
      WrapMask(at, i);
    }
  }

  lemma RingSplit(d: seq<byte>, at: nat, n: nat, u: nat)
    requires |d| == RING && u <= n
    ensures RingBytes(d, at, n)[..u] == RingBytes(d, at, u) && RingBytes(d, at, n)[u..] == RingBytes(d, at + u, n - u)
  {
  }

  class Ring {
    var magic: nat
    var head: u32
    var tail: u32
    var lost: u32
    const data: array<byte>

    /** Memory that nobody has set up yet. */
    constructor (store: array<byte>)
      requires store.Length == RING
      ensures data == store
    {
      magic, head, tail, lost, data := *, *, *, *, store;
    }

    ghost predicate Valid()
      reads this
    {
      data.Length == RING && Behind(head, tail) <= RING
    }

    /** The bytes that wait, oldest first. */
    ghost function Text(): (t: seq<byte>)
      requires Valid()
      reads this, data
    {
      RingBytes(data[..], tail, Behind(head, tail))
    }

    method Pending() returns (n: u32)
      requires Valid()
      ensures n == |Text()|
    {
      n := Behind(head, tail);
    }

    /** Lets go of the oldest `n` bytes. */
    method Consume(n: nat)
      requires Valid() && n <= |Text()|
      modifies this`tail
      ensures Valid() && Text() == old(Text())[n..]
    {
      hide RingBytes;
      TailAdvanced(head, tail, n);
      RingSplit(data[..], tail, Behind(head, tail), n);
      WrapTail(data[..], tail + n, Behind(head, tail) - n);
      tail := (tail + n) % TWO_32;
    }

    /** Keeps what a reset left behind, or starts empty when the memory cannot be a ring. */
    method Recover() returns (held: u32)
      requires data.Length == RING
      modifies this
      ensures Valid() && held == |Text()|
      ensures old(magic == MAGIC && Behind(head, tail) <= RING) ==> unchanged(this)
      ensures !old(magic == MAGIC && Behind(head, tail) <= RING) ==> Text() == [] && lost == 0 && magic == MAGIC
    {
      held := Behind(head, tail);
      if magic == MAGIC && held <= RING {
        return;
      }
      magic, head, tail, lost, held := MAGIC, 0, 0, 0, 0;
    }

    /** A whole line or nothing. */
    method Put(s: seq<byte>) returns (stored: bool)
      requires Valid() && |s| < TWO_32
      modifies this`head, this`lost, data
      ensures Valid() && stored == (|old(Text())| + |s| <= RING)
      ensures stored ==> Text() == old(Text()) + s && lost == old(lost)
      ensures !stored ==> Text() == old(Text()) && lost == (old(lost) + 1) % TWO_32 && data[..] == old(data[..])
    {
      hide RingBytes, Behind;
      var held := Behind(head, tail);
      if |s| > RING - held {
        lost := (lost + 1) % TWO_32;
        return false;
      }
      ghost var before := RingBytes(data[..], tail, held);
      var i := 0;
      assert s[..0] == [] && before + [] == before;
      while i < |s|
        invariant 0 <= i <= |s| && head == old(head) && lost == old(lost)
        invariant RingBytes(data[..], tail, held + i) == before + s[..i]
      {
        SlotOf(head, tail, i);
        ghost var d := data[..];
        data[(head + i) % TWO_32 % RING] := s[i];
        Extend(d, data[..], tail, held + i, s[i]);
        assert s[..i + 1] == s[..i] + [s[i]];
        Assoc(before, s[..i], [s[i]]);
        i := i + 1;
      }
      assert s[..|s|] == s;
      HeadAdvanced(head, tail, |s|);
      head := (head + |s|) % TWO_32;
      return true;
    }
  }

  /** The slot of the next byte but `i`, computed from the head or counted from the tail. */
  lemma SlotOf(head: u32, tail: u32, i: nat)
    ensures (head + i) % TWO_32 % RING == (tail + (Behind(head, tail) + i)) % RING
  {
    HeadIsEnd(head, tail);
    WrapMask(head + i, 0);
    WrapMask(tail + Behind(head, tail), i);
  }

  lemma HeadIsEnd(head: u32, tail: u32)
    ensures head == (tail + Behind(head, tail)) % TWO_32
  {
  }

  lemma TailAdvanced(head: u32, tail: u32, n: nat)
    requires n <= Behind(head, tail)
    ensures Behind(head, (tail + n) % TWO_32) == Behind(head, tail) - n
  {
  }

  lemma HeadAdvanced(head: u32, tail: u32, n: nat)
    requires Behind(head, tail) + n <= RING
    ensures Behind((head + n) % TWO_32, tail) == Behind(head, tail) + n
  {
  }

  /** Storing one byte behind the ones held adds it and disturbs none of them. */
  lemma Extend(d: seq<byte>, e: seq<byte>, at: nat, n: nat, b: byte)
    requires |d| == |e| == RING && n < RING
    requires e == d[(at + n) % RING := b]
    ensures RingBytes(e, at, n + 1) == RingBytes(d, at, n) + [b]
  {
    var x, y := RingBytes(e, at, n + 1), RingBytes(d, at, n) + [b];
    forall i | 0 <= i < n + 1 ensures x[i] == y[i] {
      if i < n {
        Distinct(at + i, at + n);
      }
    }
  }

  /** The `i`-th waiting byte, found as the flush finds it. */
  lemma SlotAt(d: seq<byte>, tail: u32, n: nat, i: nat)
    requires |d| == RING && i < n
    ensures d[(tail + i) % TWO_32 % RING] == RingBytes(d, tail, n)[i]
  {
    WrapMask(tail + i, 0);
  }
}
