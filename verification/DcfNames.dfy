/** The names of session directories and clips, printed and parsed by the firmware and by the desktop. */
module DcfNames {
  import opened Wrappers

  const DIR_MIN: nat := 100
  const DIR_MAX: nat := 999
  const IDX_MAX: nat := 9999
  const DIRTAG: string := "FCDVR"
  const PREFIX: string := "FCDV"
  const EXT: string := "AVI"

  // ---- digits ----

  predicate IsDigit(c: char) {
    '0' <= c <= '9'
  }

  predicate AllDigits(s: string) {
    forall i :: 0 <= i < |s| ==> IsDigit(s[i])
  }

  function Digit(v: nat): (c: char)
    requires v < 10
    ensures IsDigit(c)
  {
    ('0' as int + v) as char
  }

  /** The last `width` decimal digits of `v`. */
  function Dec(v: nat, width: nat): (s: string)
    ensures |s| == width && AllDigits(s)
  {
    if width == 0 then "" else Dec(v / 10, width - 1) + [Digit(v % 10)]
  }

  function Value(s: string): nat
    requires AllDigits(s)
  {
    if s == "" then 0 else 10 * Value(s[..|s| - 1]) + (s[|s| - 1] as int - '0' as int)
  }

  function Pow10(w: nat): nat {
    if w == 0 then 1 else 10 * Pow10(w - 1)
  }

  lemma {:induction false} ValueOfDec(v: nat, w: nat)
    requires v < Pow10(w)
    ensures Value(Dec(v, w)) == v
  {
    if w > 0 {
      ValueOfDec(v / 10, w - 1);
      assert Dec(v, w)[..w - 1] == Dec(v / 10, w - 1);
    }
  }

  lemma {:induction false} DecOfValue(s: string)
    requires AllDigits(s)
    ensures Dec(Value(s), |s|) == s && Value(s) < Pow10(|s|)
    decreases |s|
  {
    if s != "" {
      DecOfValue(s[..|s| - 1]);
      assert s == s[..|s| - 1] + [s[|s| - 1]];
    }
  }

  /** Prints from the last digit to the first. */
  method PutDec(v: nat, width: nat) returns (s: string)
    ensures s == Dec(v, width)
  {
    var p := new char[width];
    var rest, i := v, width;
    while i > 0
      invariant 0 <= i <= width && Dec(v, width) == Dec(rest, i) + p[i..]
    {
      i := i - 1;
      ghost var tail := p[i + 1..];
      p[i] := Digit(rest % 10);
      rest := rest / 10;
      assert p[i..] == [p[i]] + tail;
      assert (Dec(rest, i) + [p[i]]) + tail == Dec(rest, i) + ([p[i]] + tail);
    }
    return p[..];
  }

  // ---- names ----

  function SessionDirName(n: nat): string {
    Dec(n, 3) + DIRTAG
  }

  function ClipFileName(n: nat): string {
    PREFIX + Dec(n, 4) + "." + EXT
  }

  /** The number of a session directory, or -1 for a name that is not one. */
  function SessionOf(n: string): (r: int)
    ensures -1 <= r <= DIR_MAX
  {
    if |n| == 8 && AllDigits(n[..3]) && n[3..] == DIRTAG && Value(n[..3]) >= DIR_MIN then
      DecOfValue(n[..3]);
      assert Pow10(3) == 1000 by { assert Pow10(2) == 100; }
      Value(n[..3])
    else -1
  }

  /** The index of a clip, or -1 for a name that is not one. */
  function ClipOf(n: string): (r: int)
    ensures -1 <= r <= IDX_MAX
  {
    if |n| == 12 && n[..4] == PREFIX && AllDigits(n[4..8]) && n[8..] == "." + EXT then
      DecOfValue(n[4..8]);
      assert Pow10(4) == 10000 by { assert Pow10(2) == 100; }
      Value(n[4..8])
    else -1
  }

  /** Printing and parsing are inverse. */
  lemma SessionRoundTrip(n: string, v: nat)
    ensures SessionOf(n) == v <==> DIR_MIN <= v <= DIR_MAX && n == SessionDirName(v)
  {
    assert Pow10(3) == 1000 by { assert Pow10(2) == 100; }
    if SessionOf(n) == v {
      DecOfValue(n[..3]);
      assert n == n[..3] + n[3..];
    }
    if DIR_MIN <= v <= DIR_MAX && n == SessionDirName(v) {
      ValueOfDec(v, 3);
      assert n[..3] == Dec(v, 3) && n[3..] == DIRTAG;
    }
  }

  lemma ClipRoundTrip(n: string, v: nat)
    ensures ClipOf(n) == v <==> v <= IDX_MAX && n == ClipFileName(v)
  {
    assert Pow10(4) == 10000 by { assert Pow10(2) == 100; }
    if ClipOf(n) == v {
      DecOfValue(n[4..8]);
      assert n == n[..4] + n[4..8] + n[8..];
      assert PREFIX + Dec(v, 4) + "." + EXT == PREFIX + Dec(v, 4) + ("." + EXT);
    }
    if v <= IDX_MAX && n == ClipFileName(v) {
      ValueOfDec(v, 4);
      assert n[..4] == PREFIX && n[4..8] == Dec(v, 4) && n[8..] == "." + EXT;
    }
  }

  /** The names letter by letter: decimal digits, highest first, behind or before the fixed part. */
  lemma NamesSpelt(n: nat)
    ensures n <= 999 ==> SessionDirName(n) == [Figure(n / 100), Figure(n / 10), Figure(n)] + "FCDVR"
    ensures n <= 9999 ==> ClipFileName(n) == "FCDV" + [Figure(n / 1000), Figure(n / 100), Figure(n / 10), Figure(n)] + ".AVI"
    ensures SessionDirName(105) == "105FCDVR" && ClipFileName(42) == "FCDV0042.AVI"
  {
    hide Dec, Figure;
    LastThree(n);
    LastThree(n / 10);
    LastOne(n, 3);
    Examples();
    assert n / 10 / 100 == n / 1000 && n / 10 / 10 == n / 100;
    assert PREFIX + Dec(n, 4) + "." + EXT == PREFIX + Dec(n, 4) + ".AVI";
  }

  lemma Examples()
    ensures SessionDirName(105) == "105FCDVR" && ClipFileName(42) == "FCDV0042.AVI"
  {
    hide Dec;
    LastThree(105);
    LastThree(4);
    LastOne(42, 3);
  }

  /** The last decimal digit of `v`. */
  function Figure(v: nat): char {
    "0123456789"[v % 10]
  }

  lemma LastThree(n: nat)
    ensures Dec(n, 3) == [Figure(n / 100), Figure(n / 10), Figure(n)]
    ensures Digit(n % 10) == Figure(n)
  {
    hide Dec, Figure;
    FigureIs(n % 10);
    LastOne(n, 2);
    LastOne(n / 10, 1);
    LastOne(n / 10 / 10, 0);
    assert n / 10 / 10 == n / 100;
  }

  lemma LastOne(n: nat, w: nat)
    ensures Dec(n, w + 1) == Dec(n / 10, w) + [Figure(n)] && Dec(n, 0) == "" && Digit(n % 10) == Figure(n)
  {
    FigureIs(n % 10);
    assert n % 10 % 10 == n % 10;
  }

  lemma FigureIs(d: nat)
    requires d < 10
    ensures Digit(d) == Figure(d)
  {
  }

  // ---- the firmware's parsers, on C strings ----

  /** Character `i` of a C string, whose end is a NUL. */
  function At(n: string, i: nat): char {
    if i < |n| then n[i] else '\0'
  }

  method SameAt(n: string, at: nat, s: string) returns (same: bool)
    requires forall i :: 0 <= i < |s| ==> s[i] != '\0'
    ensures same <==> at + |s| <= |n| && n[at..at + |s|] == s
  {
    var i := 0;
    while i < |s|
      invariant 0 <= i <= |s| && (i == 0 || at + i <= |n|)
      invariant forall j :: 0 <= j < i ==> n[at + j] == s[j]
    {
      if At(n, at + i) != s[i] {
        return false;
      }
      i := i + 1;
    }
    return at + |s| <= |n|;
  }

  method ParseDirName(n: string) returns (r: int)
    requires '\0' !in n
    ensures r == SessionOf(n)
  {
    var v := 0;
    for i := 0 to 3
      invariant i <= |n| && AllDigits(n[..i]) && v == Value(n[..i])
    {
      if !IsDigit(At(n, i)) {
        assert |n| >= 3 ==> n[..3][i] == n[i];
        return -1;
      }
      assert n[..i + 1][..i] == n[..i];
      v := v * 10 + (n[i] as int - '0' as int);
    }
    var tag := SameAt(n, 3, DIRTAG);
    if !tag || At(n, 3 + |DIRTAG|) != '\0' {
      return -1;
    }
    assert |n| == 8 && n[3..] == n[3..8];
    return if v < DIR_MIN then -1 else v;
  }

  method ParseClipName(n: string) returns (r: int)
    requires '\0' !in n
    ensures r == ClipOf(n)
  {
    var ours := SameAt(n, 0, PREFIX);
    if !ours {
      return -1;
    }
    assert n[..4] == PREFIX;
    var v := 0;
    for i := 4 to 8
      invariant i <= |n| && AllDigits(n[4..i]) && v == Value(n[4..i])
    {
      if !IsDigit(At(n, i)) {
        assert |n| >= 8 ==> n[4..8][i - 4] == n[i];
        return -1;
      }
      assert n[4..i + 1][..i - 4] == n[4..i];
      v := v * 10 + (n[i] as int - '0' as int);
    }
    if At(n, 8) != '.' {
      assert |n| > 8 ==> n[8..][0] == n[8];
      return -1;
    }
    var ext := SameAt(n, 9, EXT);
    if !ext {
      assert |n| == 12 ==> n[8..][1..] == n[9..12];
      return -1;
    }
    if At(n, 12) != '\0' {
      return -1;
    }
    assert n[8..] == [n[8]] + n[9..12];
    return v;
  }

  // ---- the desktop's printers and parsers ----

  /** A number as it is written, without leading zeros. */
  function Decimal(n: nat): (s: string)
    ensures |s| >= 1 && AllDigits(s)
  {
    if n < 10 then [Digit(n)] else Decimal(n / 10) + [Digit(n % 10)]
  }

  function PadStart(s: string, w: nat): string {
    if |s| >= w then s else seq(w - |s|, _ => '0') + s
  }

  lemma {:induction false} PaddedDecimal(n: nat, w: nat)
    requires n < Pow10(w) && w > 0
    ensures PadStart(Decimal(n), w) == Dec(n, w) && |Decimal(n)| <= w
    decreases w
  {
    if w == 1 {
      assert Pow10(1) == 10;
      assert Dec(n, 1) == "" + [Digit(n % 10)];
    } else if n < 10 {
      DecOfZero(w - 1);
    } else {
      PaddedDecimal(n / 10, w - 1);
    }
  }

  lemma {:induction false} DecOfZero(w: nat)
    ensures Dec(0, w) == seq(w, _ => '0')
  {
    if w > 0 {
      DecOfZero(w - 1);
    }
  }

  function ParseSessionDirTs(name: string): Option<nat> {
    if |name| != 3 + |DIRTAG| then None
    else if name[3..] != DIRTAG then None
    else if !AllDigits(name[..3]) then None
    else
      var v := Value(name[..3]);
      if v < DIR_MIN || v > DIR_MAX then None else Some(v)
  }

  function ParseClipNameTs(name: string): Option<nat> {
    if |name| != |PREFIX| + 4 + 1 + |EXT| then None
    else if name[..|PREFIX|] != PREFIX then None
    else if !AllDigits(name[4..8]) then None
    else if name[8] != '.' then None
    else if name[9..] != EXT then None
    else
      var v := Value(name[4..8]);
      if v < 1 || v > IDX_MAX then None else Some(v)
  }

  function SessionDirNameTs(n: nat): string {
    PadStart(Decimal(n), 3) + DIRTAG
  }

  function ClipFileNameTs(n: nat): string {
    PREFIX + PadStart(Decimal(n), 4) + "." + EXT
  }

  /** Firmware and desktop print the same names. */
  lemma PrintersAgree(n: nat)
    ensures n <= DIR_MAX ==> SessionDirNameTs(n) == SessionDirName(n)
    ensures n <= IDX_MAX ==> ClipFileNameTs(n) == ClipFileName(n)
  {
    assert Pow10(3) == 1000 && Pow10(4) == 10000 by { assert Pow10(2) == 100; }
    if n <= DIR_MAX {
      PaddedDecimal(n, 3);
    }
    if n <= IDX_MAX {
      PaddedDecimal(n, 4);
    }
  }

  function AsOption(r: int): Option<nat> {
    if r < 0 then None else Some(r)
  }

  /** They read the same names as session directories; of clip names they read all but one alike. */
  lemma ParsersAgree(n: string)
    ensures ParseSessionDirTs(n) == AsOption(SessionOf(n))
    ensures ParseClipNameTs(n) == AsOption(ClipOf(n)) <==> n != ClipFileName(0)
  {
    var s := SessionOf(n);
    if |n| == 8 && AllDigits(n[..3]) {
      DecOfValue(n[..3]);
      assert Pow10(3) == 1000 by { assert Pow10(2) == 100; }
    }
    if |n| == 12 {
      assert n[8..] == [n[8]] + n[9..];
      assert "." + EXT == ['.'] + EXT;
      if n[8..] == "." + EXT {
        assert n[8..][1..] == n[9..] == EXT && n[8..][0] == '.';
      }
    }
    ClipRoundTrip(n, 0);
  }
}
