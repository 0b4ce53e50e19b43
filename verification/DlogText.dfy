/** The text a log extent holds: sectors of spaces-padded text, read as one stream. */
module DlogText {
  import opened Bytes

  const SECTOR: nat := 512
  const PAD: byte := 0x20
  const CR: byte := 0x0D
  const LF: byte := 0x0A

  const FULL_TEXT: string := "*** log full: logging stopped. The next power-up clears the file. ***\r\n"
  const FULL_MSG: seq<byte> := Ascii(FULL_TEXT)

  function Pads(n: nat): (r: seq<byte>)
    ensures |r| == n && forall i :: 0 <= i < n ==> r[i] == PAD
  {
    seq(n, _ => PAD)
  }

  /** The last sector of a log that is full. */
  function FullSector(): (r: seq<byte>)
    ensures |r| == SECTOR
  {
    FULL_MSG + Pads(SECTOR - |FULL_MSG|)
  }

  lemma FullIsText()
    ensures !IsPadding(FullSector())
  {
    var last := |FULL_TEXT| - 1;
    assert FULL_TEXT[last] == '\n';
    assert FullSector()[last] == FULL_MSG[last] != PAD;
  }

  predicate IsPadding(s: seq<byte>) {
    forall i :: 0 <= i < |s| ==> s[i] == PAD
  }

  predicate Sectors(ss: seq<seq<byte>>) {
    forall i :: 0 <= i < |ss| ==> |ss[i]| == SECTOR
  }

  function Flatten(ss: seq<seq<byte>>): seq<byte> {
    if ss == [] then [] else Flatten(ss[..|ss| - 1]) + ss[|ss| - 1]
  }

  /** The text without the spaces at its end. */
  function Trim(s: seq<byte>): (r: seq<byte>)
    ensures r <= s && (r != [] ==> r[|r| - 1] != PAD) && IsPadding(s[|r|..])
  {
    if s == [] || s[|s| - 1] != PAD then s else Trim(s[..|s| - 1])
  }

  /** Sectors that are nothing but padding form a suffix, which starts at `first`. */
  predicate PaddedFrom(ss: seq<seq<byte>>, first: nat) {
    && first <= |ss|
    && (forall i :: 0 <= i < first ==> !IsPadding(ss[i]))
    && (forall i :: first <= i < |ss| ==> IsPadding(ss[i]))
  }

  /** Every sector's worth of the stream holds something other than a space, and so does its end. */
  ghost predicate WellKnit(s: seq<byte>) {
    && (s != [] ==> s[|s| - 1] != PAD)
    && forall k: nat {:trigger Window(s, k)} :: SECTOR * (k + 1) <= |s| ==> !IsPadding(Window(s, k))
  }

  function Window(s: seq<byte>, k: nat): seq<byte>
    requires SECTOR * (k + 1) <= |s|
  {
    s[SECTOR * k..SECTOR * (k + 1)]
  }

  /** A line as the log formats it, as far as the card cares. */
  predicate Line(s: seq<byte>) {
    2 <= |s| <= 200 && s[|s| - 2] == CR && s[|s| - 1] == LF
  }

  lemma {:induction false} FlattenLength(ss: seq<seq<byte>>)
    requires Sectors(ss)
    ensures |Flatten(ss)| == SECTOR * |ss|
    decreases |ss|
  {
    if ss != [] {
      FlattenLength(ss[..|ss| - 1]);
    }
  }

  lemma FlattenSnoc(ss: seq<seq<byte>>, s: seq<byte>)
    ensures Flatten(ss + [s]) == Flatten(ss) + s
  {
    assert (ss + [s])[..|ss|] == ss;
  }

  lemma {:induction false} FlattenAppend(ss: seq<seq<byte>>, ts: seq<seq<byte>>)
    ensures Flatten(ss + ts) == Flatten(ss) + Flatten(ts)
    decreases |ts|
  {
    if ts == [] {
      assert ss + ts == ss;
    } else {
      assert (ss + ts)[..|ss + ts| - 1] == ss + ts[..|ts| - 1];
      FlattenAppend(ss, ts[..|ts| - 1]);
    }
  }

  /** Sector `k` of a flattened extent. */
  lemma {:induction false} FlattenWindow(ss: seq<seq<byte>>, k: nat)
    requires Sectors(ss) && k < |ss|
    ensures |Flatten(ss)| == SECTOR * |ss| && Window(Flatten(ss), k) == ss[k]
    decreases |ss|
  {
    FlattenLength(ss);
    var init := ss[..|ss| - 1];
    FlattenLength(init);
    if k < |init| {
      FlattenWindow(init, k);
      assert Window(Flatten(ss), k) == Window(Flatten(init), k);
    }
  }

  lemma {:induction false} FlattenPadding(ss: seq<seq<byte>>)
    requires forall i :: 0 <= i < |ss| ==> IsPadding(ss[i])
    ensures IsPadding(Flatten(ss))
    decreases |ss|
  {
    if ss != [] {
      FlattenPadding(ss[..|ss| - 1]);
    }
  }

  lemma {:induction false} TrimPadding(s: seq<byte>, t: seq<byte>)
    requires IsPadding(t)
    ensures Trim(s + t) == Trim(s)
    decreases |t|
  {
    if t == [] {
      assert s + t == s;
    } else {
      assert (s + t)[..|s + t| - 1] == s + t[..|t| - 1];
      TrimPadding(s, t[..|t| - 1]);
    }
  }

  lemma {:induction false} TrimBehind(s: seq<byte>, t: seq<byte>)
    requires Trim(t) != []
    ensures Trim(s + t) == s + Trim(t)
    decreases |t|
  {
    if t[|t| - 1] == PAD {
      assert (s + t)[..|s + t| - 1] == s + t[..|t| - 1];
      TrimBehind(s, t[..|t| - 1]);
    }
  }

  lemma TrimKept(s: seq<byte>)
    requires s == [] || s[|s| - 1] != PAD
    ensures Trim(s) == s
  {
  }

  lemma NotPadding(s: seq<byte>)
    ensures Trim(s) == [] <==> IsPadding(s)
  {
    assert Trim(s) != [] ==> Trim(s)[|Trim(s)| - 1] == s[|Trim(s)| - 1];
    if Trim(s) == [] {
      assert s[0..] == s;
    }
  }

  /** Where the text of an extent ends: in its last sector that is not padding. */
  lemma TrimExtent(ss: seq<seq<byte>>, first: nat)
    requires Sectors(ss) && PaddedFrom(ss, first)
    ensures first == 0 ==> Trim(Flatten(ss)) == []
    ensures first > 0 ==> Trim(Flatten(ss)) == Flatten(ss[..first - 1]) + Trim(ss[first - 1])
  {
    hide Trim;
    assert ss == ss[..first] + ss[first..];
    FlattenAppend(ss[..first], ss[first..]);
    FlattenPadding(ss[first..]);
    TrimPadding(Flatten(ss[..first]), Flatten(ss[first..]));
    if first > 0 {
      assert ss[..first] == ss[..first - 1] + [ss[first - 1]];
      FlattenSnoc(ss[..first - 1], ss[first - 1]);
      NotPadding(ss[first - 1]);
      TrimBehind(Flatten(ss[..first - 1]), ss[first - 1]);
    } else {
      assert ss[..first] == [];
      TrimKept([]);
    }
  }

  /** The end of the text of an extent, in sectors and bytes. */
  lemma EndOfText(ext: seq<seq<byte>>, first: nat)
    requires Sectors(ext) && PaddedFrom(ext, first)
    ensures first == 0 ==> Trim(Flatten(ext)) == []
    ensures first > 0 ==> var t, i := Trim(Flatten(ext)), |Trim(ext[first - 1])|;
      |t| == SECTOR * (first - 1) + i && 0 < i <= SECTOR && t[|t| - 1] == ext[first - 1][i - 1]
      && |t| / SECTOR == (if i == SECTOR then first else first - 1) && |t| % SECTOR == (if i == SECTOR then 0 else i)
  {
    TrimExtent(ext, first);
    if first > 0 {
      FlattenLength(ext[..first - 1]);
      NotPadding(ext[first - 1]);
    }
  }

  function Span(t: seq<byte>, i: nat): seq<byte>
    requires i + SECTOR <= |t|
  {
    t[i..i + SECTOR]
  }

  /** Any sector's worth of consecutive bytes holds something other than a space, and so does the end. */
  ghost predicate Dense(t: seq<byte>) {
    && (t != [] ==> t[|t| - 1] != PAD)
    && forall i: nat {:trigger Span(t, i)} :: i + SECTOR <= |t| ==> !IsPadding(Span(t, i))
  }

  lemma DenseAppend(t: seq<byte>, line: seq<byte>)
    requires Dense(t) && 0 < |line| < SECTOR && line[|line| - 1] != PAD
    ensures Dense(t + line)
  {
    var u := t + line;
    forall i: nat | i + SECTOR <= |u| ensures !IsPadding(Span(u, i)) {
      if i + SECTOR <= |t| {
        assert Span(u, i) == Span(t, i);
      } else {
        assert Span(u, i)[|t| - 1 - i] == t[|t| - 1];
      }
    }
  }

  lemma DenseSuffix(t: seq<byte>, k: nat)
    requires Dense(t) && k <= |t|
    ensures Dense(t[k..])
  {
    var u := t[k..];
    forall i: nat | i + SECTOR <= |u| ensures !IsPadding(Span(u, i)) {
      assert Span(u, i) == Span(t, k + i);
    }
  }

  lemma KnitDense(s: seq<byte>, t: seq<byte>)
    requires WellKnit(s) && Dense(t)
    ensures WellKnit(s + t)
  {
    var u := s + t;
    forall k: nat | SECTOR * (k + 1) <= |u| ensures !IsPadding(Window(u, k)) {
      var a := SECTOR * k;
      if a + SECTOR <= |s| {
        assert Window(u, k) == Window(s, k);
      } else if a < |s| {
        assert Window(u, k)[|s| - 1 - a] == s[|s| - 1];
      } else {
        WindowBehind(s, t, k);
      }
    }
  }

  lemma WindowBehind(s: seq<byte>, t: seq<byte>, k: nat)
    requires |s| <= SECTOR * k && SECTOR * (k + 1) <= |s + t|
    ensures Window(s + t, k) == Span(t, SECTOR * k - |s|)
  {
    var a := SECTOR * k;
    assert (s + t)[a..a + SECTOR] == t[a - |s|..a - |s| + SECTOR];
  }
}
