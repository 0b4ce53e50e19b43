/** Bytes, little-endian 32-bit fields, and writing into the middle of a file. */
module Bytes {
  newtype byte = b: int | 0 <= b < 256
  type u32 = v: int | 0 <= v < 0x1_0000_0000

  const TWO_32: nat := 0x1_0000_0000

  /** A text's bytes, one for each character. */
  function Ascii(s: string): (r: seq<byte>)
    ensures |r| == |s| && forall i :: 0 <= i < |s| ==> r[i] as int == s[i] as int % 256
  {
    seq(|s|, i requires 0 <= i < |s| => (s[i] as int % 256) as byte)
  }

  /** The four little-endian bytes of `v`, truncated to 32 bits. */
  function Put32(v: nat): (r: seq<byte>)
    ensures |r| == 4
  {
    [(v % 256) as byte, (v / 0x100 % 256) as byte, (v / 0x1_0000 % 256) as byte, (v / 0x100_0000 % 256) as byte]
  }

  function Get32(f: seq<byte>, at: nat): (v: nat)
    requires at + 4 <= |f|
    ensures v < TWO_32
  {
    f[at] as nat + 0x100 * (f[at + 1] as nat) + 0x1_0000 * (f[at + 2] as nat) + 0x100_0000 * (f[at + 3] as nat)
  }

  lemma GetPut32(v: nat)
    ensures Get32(Put32(v), 0) == v % TWO_32
  {
    var a := v / 0x100;
    var b := a / 0x100;
    var c := b / 0x100;
    assert v / 0x1_0000 == b && v / 0x100_0000 == c;
    assert v == v % 256 + 0x100 * (a % 256) + 0x1_0000 * (b % 256) + 0x100_0000 * (c % 256) + TWO_32 * (c / 256);
  }

  /** The lowest byte comes first. */
  lemma LittleEndian(a: byte, b: byte, c: byte, d: byte)
    ensures Put32(a as nat + 256 * (b as nat) + 65536 * (c as nat) + 16777216 * (d as nat)) == [a, b, c, d]
    ensures Get32([a, b, c, d], 0) == a as nat + 256 * (b as nat) + 65536 * (c as nat) + 16777216 * (d as nat)
  {
    var v := a as nat + 256 * (b as nat) + 65536 * (c as nat) + 16777216 * (d as nat);
    assert v / 0x100 == b as nat + 256 * (c as nat) + 65536 * (d as nat);
    assert v / 0x1_0000 == c as nat + 256 * (d as nat);
    assert v / 0x100_0000 == d as nat;
  }

  lemma GetInside(f: seq<byte>, at: nat, g: seq<byte>)
    requires at + 4 <= |f| && |g| == 4 && f[at..at + 4] == g
    ensures Get32(f, at) == Get32(g, 0)
  {
    assert f[at] == g[0] && f[at + 1] == g[1] && f[at + 2] == g[2] && f[at + 3] == g[3];
  }

  /** `d` written at offset `at`; a file shorter than `at` is first extended with zeros. */
  function Overlay(f: seq<byte>, at: nat, d: seq<byte>): (r: seq<byte>)
    ensures |r| == if |f| < at + |d| then at + |d| else |f|
    ensures forall i :: 0 <= i < |r| ==>
      r[i] == if at <= i < at + |d| then d[i - at] else if i < |f| then f[i] else 0
  {
    seq(if |f| < at + |d| then at + |d| else |f|,
        i requires 0 <= i => if at <= i < at + |d| then d[i - at] else if i < |f| then f[i] else 0)
  }

  lemma Sub<T>(f: seq<T>, a: nat, b: nat, i: nat, j: nat)
    requires a <= b <= |f| && i <= j <= b - a
    ensures f[a..b][i..j] == f[a + i..a + j]
  {
    var x, y := f[a..b][i..j], f[a + i..a + j];
    assert forall k :: 0 <= k < |x| ==> x[k] == y[k];
  }

  lemma Assoc<T>(a: seq<T>, b: seq<T>, c: seq<T>)
    ensures (a + b) + c == a + (b + c)
  {
  }

  lemma PutGet32(f: seq<byte>, at: nat)
    requires at + 4 <= |f|
    ensures Put32(Get32(f, at)) == f[at..at + 4]
  {
    var v := Get32(f, at);
    var b0, b1, b2, b3 := f[at] as nat, f[at + 1] as nat, f[at + 2] as nat, f[at + 3] as nat;
    assert v / 0x100 == b1 + 0x100 * b2 + 0x1_0000 * b3;
    assert v / 0x1_0000 == b2 + 0x100 * b3;
    assert v / 0x100_0000 == b3;
  }

  /** `x` holds `b` at offset `at`. */
  predicate Holds(x: seq<byte>, at: nat, b: seq<byte>) {
    at + |b| <= |x| && x[at..at + |b|] == b
  }

  lemma HoldsParts(x: seq<byte>, at: nat, a: seq<byte>, b: seq<byte>)
    requires Holds(x, at, a + b)
    ensures Holds(x, at, a) && Holds(x, at + |a|, b)
  {
    Sub(x, at, at + |a + b|, 0, |a|);
    Sub(x, at, at + |a + b|, |a|, |a + b|);
    assert (a + b)[0..|a|] == a && (a + b)[|a|..|a + b|] == b;
  }

  lemma SliceMoved<T>(x: seq<T>, mid: nat, f: seq<T>, from: nat, end: nat, a: nat, n: nat)
    requires from <= end <= |f| && mid + (end - from) <= |x| && x[mid..mid + (end - from)] == f[from..end]
    requires a + n <= end - from
    ensures x[mid + a..mid + a + n] == f[from + a..from + a + n]
  {
    Sub(x, mid, mid + (end - from), a, a + n);
    Sub(f, from, end, a, a + n);
  }

  lemma PrefixTrans<T>(a: seq<T>, b: seq<T>, c: seq<T>)
    requires a <= b && b <= c
    ensures a <= c
  {
  }

  lemma OverlayBehind(a: seq<byte>, b: seq<byte>, d: seq<byte>)
    ensures Overlay(a + b, |a|, d) == a + Overlay(b, 0, d)
  {
  }

  lemma OverlayFront(a: seq<byte>, b: seq<byte>, at: nat, d: seq<byte>)
    requires at + |d| <= |a|
    ensures Overlay(a + b, at, d) == Overlay(a, at, d) + b
  {
  }

  lemma WrapTwice(a: nat, b: nat)
    ensures (a % TWO_32 + b) % TWO_32 == (a + b) % TWO_32
  {
    var q := a / TWO_32;
    assert a == q * TWO_32 + a % TWO_32;
    WrapMultiple(a % TWO_32 + b, q);
  }

  lemma {:induction false} WrapMultiple(a: nat, q: nat)
    ensures (a + q * TWO_32) % TWO_32 == a % TWO_32
    decreases q
  {
    if q > 0 {
      WrapMultiple(a, q - 1);
      assert (a + (q - 1) * TWO_32) + TWO_32 == a + q * TWO_32;
    }
  }
}
