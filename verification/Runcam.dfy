/** The camera's end of the RunCam protocol: a parser fed byte by byte that finds its way back after noise. */
module Runcam {
  import opened Bytes

  const HDR: bv8 := 0xCC

  // ---- CRC-8 DVB-S2 --------------------------------------------------------

  function Round(x: bv8): bv8 {
    if x & 0x80 != 0 then (x << 1) ^ 0xD5 else x << 1
  }

  function Rounds(x: bv8, n: nat): bv8 {
    if n == 0 then x else Round(Rounds(x, n - 1))
  }

  function Step(crc: bv8, b: bv8): bv8 {
    Rounds(crc ^ b, 8)
  }

  /** The CRC of a message, from the start value `crc`. */
  function Crc(crc: bv8, s: seq<bv8>): bv8 {
    if s == [] then crc else Step(Crc(crc, s[..|s| - 1]), s[|s| - 1])
  }

  method CrcByte(crc: bv8, b: bv8) returns (r: bv8)
    ensures r == Step(crc, b)
  {
    r := crc ^ b;
    for i := 0 to 8
      invariant r == Rounds(crc ^ b, i)
    {
      r := if r & 0x80 != 0 then (r << 1) ^ 0xD5 else r << 1;
    }
  }

  lemma RoundInjective(x: bv8, y: bv8)
    ensures Round(x) == Round(y) ==> x == y
  {
  }

  lemma {:induction false} RoundsInjective(x: bv8, y: bv8, n: nat)
    ensures Rounds(x, n) == Rounds(y, n) ==> x == y
  {
    if n > 0 {
      RoundsInjective(x, y, n - 1);
      RoundInjective(Rounds(x, n - 1), Rounds(y, n - 1));
    }
  }

  lemma StepInjective(a: bv8, b: bv8, x: bv8, y: bv8)
    requires Step(a, x) == Step(b, y)
    ensures a == b <==> x == y
  {
    hide Rounds, Round;
    RoundsInjective(a ^ x, b ^ y, 8);
    XorInjective(a, b, x, y);
  }

  lemma XorInjective(a: bv8, b: bv8, x: bv8, y: bv8)
    requires a ^ x == b ^ y
    ensures a == b <==> x == y
  {
  }

  lemma {:induction false} CrcSplit(crc: bv8, s: seq<bv8>, t: seq<bv8>)
    ensures Crc(crc, s + t) == Crc(Crc(crc, s), t)
    decreases |t|
  {
    if t == [] {
      assert s + t == s;
    } else {
      assert (s + t)[..|s + t| - 1] == s + t[..|t| - 1];
      CrcSplit(crc, s, t[..|t| - 1]);
    }
  }

  /** Different states stay different, whatever follows. */
  lemma {:induction false} CrcInjective(a: bv8, b: bv8, t: seq<bv8>)
    ensures Crc(a, t) == Crc(b, t) ==> a == b
    decreases |t|
  {
    hide Step;
    if t != [] && Crc(a, t) == Crc(b, t) {
      var u, z := t[..|t| - 1], t[|t| - 1];
      CrcInjective(a, b, u);
      StepInjective(Crc(a, u), Crc(b, u), z, z);
    }
  }

  /** Every change confined to one byte changes the CRC, in a message of any length. */
  lemma OneByteDetected(s: seq<bv8>, i: nat, x: bv8)
    requires i < |s| && x != s[i]
    ensures Crc(0, s[i := x]) != Crc(0, s)
  {
    hide Step;
    var a, t := s[..i], s[i + 1..];
    assert s == (a + [s[i]]) + t && s[i := x] == (a + [x]) + t;
    CrcSplit(0, a + [s[i]], t);
    CrcSplit(0, a + [x], t);
    assert (a + [x])[..i] == a && (a + [s[i]])[..i] == a;
    CrcInjective(Crc(0, a + [x]), Crc(0, a + [s[i]]), t);
    if Crc(0, a + [x]) == Crc(0, a + [s[i]]) {
      StepInjective(Crc(0, a), Crc(0, a), x, s[i]);
    }
  }

  /** A message followed by its CRC has the CRC 0, and only then. */
  lemma CrcOfClosed(s: seq<bv8>, c: bv8)
    ensures Crc(0, s + [c]) == 0 <==> c == Crc(0, s)
  {
    var k := Crc(0, s);
    assert (s + [c])[..|s|] == s;
    assert k ^ k == 0 && Rounds(0, 8) == 0 by {
      RoundsZero(8);
    }
    RoundsInjective(k ^ c, 0, 8);
    if k ^ c == k ^ k {
      XorInjective(k, k, c, k);
    }
  }

  lemma {:induction false} RoundsZero(n: nat)
    ensures Rounds(0, n) == 0
  {
    if n > 0 {
      RoundsZero(n - 1);
    }
  }

  // ---- the frames in a stream ----------------------------------------------

  function FrameLen(cmd: bv8): (n: nat)
    ensures n == 0 || n == 3 || n == 4
  {
    match cmd
    case 0x00 => 3
    case 0x01 => 4
    case 0x02 => 4
    case 0x03 => 3
    case 0x04 => 4
    case _ => 0
  }

  /** `f` is one whole frame with the right CRC. */
  predicate IsFrame(f: seq<bv8>) {
    |f| >= 3 && f[0] == HDR && |f| == FrameLen(f[1]) && f[|f| - 1] == Crc(0, f[..|f| - 1])
  }

  /** The frames there are: a header byte, one of five commands, two of them without an argument, and the CRC. */
  lemma WhatIsAFrame(f: seq<bv8>)
    ensures IsFrame(f) <==>
      && |f| >= 3 && f[0] == 0xCC && f[1] as int <= 4 && |f| == (if f[1] == 0 || f[1] == 3 then 3 else 4)
      && f[|f| - 1] == Crc(0, f[..|f| - 1])
  {
    hide Crc;
  }

  /** The CRCs of the three frames known from the field, and of the answer to a request. */
  lemma KnownFrames()
    ensures Crc(0, [0xCC, 0x01, 0x01]) == 0xE7 && Crc(0, [0xCC, 0x01, 0x03]) == 0x98 && Crc(0, [0xCC, 0x01, 0x04]) == 0xCC
    ensures Crc(0, [0xCC, 0x00]) == 0x60 && Crc(0, [0xCC, 0x01, 0xC5, 0x00]) == 0xBA
  {
    hide Step;
    CrcOfTwo(0xCC, 0x00);
    CrcOfThree(0xCC, 0x01, 0x01);
    CrcOfThree(0xCC, 0x01, 0x03);
    CrcOfThree(0xCC, 0x01, 0x04);
    CrcOfThree(0xCC, 0x01, 0xC5);
    CrcSnoc([0xCC, 0x01, 0xC5], 0x00);
    assert [0xCC, 0x01, 0xC5] + [0x00] == [0xCC, 0x01, 0xC5, 0x00 as bv8];
    StepValues();
  }

  lemma CrcSnoc(s: seq<bv8>, b: bv8)
    ensures Crc(0, s + [b]) == Step(Crc(0, s), b)
  {
    assert (s + [b])[..|s|] == s;
  }

  lemma CrcOfTwo(a: bv8, b: bv8)
    ensures Crc(0, [a, b]) == Step(Step(0, a), b)
  {
    CrcSnoc([], a);
    CrcSnoc([a], b);
    assert [] + [a] == [a] && [a] + [b] == [a, b];
  }

  lemma CrcOfThree(a: bv8, b: bv8, c: bv8)
    ensures Crc(0, [a, b, c]) == Step(Step(Step(0, a), b), c)
  {
    CrcOfTwo(a, b);
    CrcSnoc([a, b], c);
    assert [a, b] + [c] == [a, b, c];
  }

  lemma StepValues()
    ensures Step(0, 0xCC) == 0xA5 && Step(0xA5, 0x01) == 0xB5 && Step(0xA5, 0x00) == 0x60
    ensures Step(0xB5, 0x01) == 0xE7 && Step(0xB5, 0x03) == 0x98 && Step(0xB5, 0x04) == 0xCC && Step(0xB5, 0xC5) == 0x6B
    ensures Step(0x6B, 0x00) == 0xBA
  {
    hide Rounds;
    EightRounds(0xCC);
    EightRounds(0xA4);
    EightRounds(0xA5);
    EightRounds(0xB4);
    EightRounds(0xB6);
    EightRounds(0xB1);
    EightRounds(0x70);
    EightRounds(0x6B);
  }

  lemma EightRounds(x: bv8)
    ensures Rounds(x, 8) == Round(Round(Round(Round(Round(Round(Round(Round(x))))))))
  {
    hide Round;
    assert Rounds(x, 1) == Round(x);
    assert Rounds(x, 2) == Round(Round(x));
    assert Rounds(x, 4) == Round(Round(Rounds(x, 2)));
    assert Rounds(x, 6) == Round(Round(Rounds(x, 4)));
    assert Rounds(x, 8) == Round(Round(Rounds(x, 6)));
  }

  datatype Frame = Frame(at: nat, len: nat) {
    function End(): nat {
      at + len
    }
  }

  predicate FrameAt(s: seq<bv8>, f: Frame) {
    f.End() <= |s| && IsFrame(s[f.at..f.End()])
  }

  /** The frames taken from a stream, where the unmatched suffix starts, and what was counted on the way. */
  datatype Outcome = Outcome(frames: seq<Frame>, rest: nat, bad: nat, drops: nat) {
    function Then(next: Outcome): Outcome {
      Outcome(frames + next.frames, next.rest, bad + next.bad, drops + next.drops)
    }
  }

  /** Leftmost first: a frame that checks is taken whole, anything else costs one byte. */
  function Match(s: seq<bv8>, i: nat): (r: Outcome)
    requires i <= |s|
    ensures i <= r.rest <= |s|
    decreases |s| - i
  {
    if i == |s| then Outcome([], i, 0, 0)
    else if s[i] != HDR then Match(s, i + 1)
    else if i + 1 == |s| then Outcome([], i, 0, 0)
    else
      var len := FrameLen(s[i + 1]);
      if len == 0 then
        var r := Match(s, i + 1);
        r.(drops := r.drops + 1)
      else if i + len > |s| then Outcome([], i, 0, 0)
      else if Crc(0, s[i..i + len - 1]) != s[i + len - 1] then
        var r := Match(s, i + 1);
        r.(bad := r.bad + 1, drops := r.drops + 1)
      else
        var r := Match(s, i + len);
        r.(frames := [Frame(i, len)] + r.frames)
  }

  /** What the matcher does at `i`: it waits for more, takes a frame of some length, or drops a byte and counts. */
  datatype Turn = Waits | Takes(len: nat) | Drops(bad: nat, drops: nat)

  function TurnAt(s: seq<bv8>, i: nat): (r: Turn)
    requires i < |s|
    ensures r.Takes? ==> 0 < r.len && i + r.len <= |s|
  {
    if s[i] != HDR then Drops(0, 0)
    else if i + 1 == |s| then Waits
    else
      var len := FrameLen(s[i + 1]);
      if len == 0 then Drops(0, 1)
      else if i + len > |s| then Waits
      else if Crc(0, s[i..i + len - 1]) != s[i + len - 1] then Drops(1, 1)
      else Takes(len)
  }

  lemma MatchByTurns(s: seq<bv8>, i: nat)
    requires i < |s|
    ensures match TurnAt(s, i)
      case Waits => Match(s, i) == Outcome([], i, 0, 0)
      case Takes(len) => Match(s, i) == Outcome([Frame(i, len)], i + len, 0, 0).Then(Match(s, i + len))
      case Drops(bad, drops) => Match(s, i) == Outcome([], i + 1, bad, drops).Then(Match(s, i + 1))
  {
    hide Crc, FrameLen;
  }

  /** More bytes change nothing where the matcher does not wait. */
  lemma SameTurn(s: seq<bv8>, t: seq<bv8>, i: nat)
    requires i < |s| && !TurnAt(s, i).Waits?
    ensures TurnAt(s + t, i) == TurnAt(s, i)
  {
    hide Crc, FrameLen;
    if i + 1 < |s| && i + FrameLen(s[i + 1]) <= |s| && FrameLen(s[i + 1]) > 0 {
      var e := i + FrameLen(s[i + 1]) - 1;
      assert (s + t)[i..e] == s[i..e];
    }
  }

  /** The matcher on a longer stream goes on where it stopped on the shorter one. */
  lemma {:induction false} MatchGoesOn(s: seq<bv8>, t: seq<bv8>, i: nat)
    requires i <= |s|
    ensures Match(s + t, i) == Match(s, i).Then(Match(s + t, Match(s, i).rest))
    decreases |s| - i
  {
    hide Match, TurnAt;
    if i == |s| {
      MatchAtEnd(s);
    } else {
      MatchByTurns(s, i);
      if !TurnAt(s, i).Waits? {
        var n := if TurnAt(s, i).Takes? then i + TurnAt(s, i).len else i + 1;
        SameTurn(s, t, i);
        MatchByTurns(s + t, i);
        MatchGoesOn(s, t, n);
        var now := if TurnAt(s, i).Takes? then [Frame(i, n - i)] else [];
        Assoc(now, Match(s, n).frames, Match(s + t, Match(s, n).rest).frames);
      }
    }
  }

  lemma MatchAtEnd(s: seq<bv8>)
    ensures Match(s, |s|) == Outcome([], |s|, 0, 0)
  {
  }

  /** What is left over is short: nothing, or the start of a frame whose end has not come. */
  lemma {:induction false} RestIsPartial(s: seq<bv8>, i: nat)
    requires i <= |s|
    ensures Partial(s[Match(s, i).rest..])
    decreases |s| - i
  {
    if i < |s| {
      if s[i] != HDR {
        RestIsPartial(s, i + 1);
      } else if i + 1 < |s| {
        var len := FrameLen(s[i + 1]);
        if len == 0 || (i + len <= |s| && Crc(0, s[i..i + len - 1]) != s[i + len - 1]) {
          RestIsPartial(s, i + 1);
        } else if i + len <= |s| {
          RestIsPartial(s, i + len);
        }
      }
    }
  }

  /** The beginning of a frame, without its end. */
  predicate Partial(b: seq<bv8>) {
    b != [] ==> b[0] == HDR && (|b| >= 2 ==> |b| < FrameLen(b[1]))
  }

  /** Frames that check, one after the other between `lo` and `hi`. */
  predicate Sound(s: seq<bv8>, lo: nat, fs: seq<Frame>, hi: nat) {
    && (forall k :: 0 <= k < |fs| ==> FrameAt(s, fs[k]) && lo <= fs[k].at && fs[k].End() <= hi)
    && (forall j, k :: 0 <= j < k < |fs| ==> fs[j].End() <= fs[k].at)
  }

  lemma SoundCons(s: seq<bv8>, lo: nat, f: Frame, fs: seq<Frame>, hi: nat)
    requires FrameAt(s, f) && lo <= f.at && f.End() <= hi && Sound(s, f.End(), fs, hi)
    ensures Sound(s, lo, [f] + fs, hi)
  {
  }

  lemma SoundNone(s: seq<bv8>, i: nat)
    ensures Sound(s, i, [], i)
  {
  }

  lemma FrameHere(s: seq<bv8>, i: nat)
    requires i + 1 < |s| && s[i] == HDR
    requires var len := FrameLen(s[i + 1]); len > 0 && i + len <= |s| && Crc(0, s[i..i + len - 1]) == s[i + len - 1]
    ensures FrameAt(s, Frame(i, FrameLen(s[i + 1])))
  {
    var len := FrameLen(s[i + 1]);
    assert s[i..i + len][..len - 1] == s[i..i + len - 1];
  }

  lemma SoundWider(s: seq<bv8>, lo: nat, lo2: nat, fs: seq<Frame>, hi: nat)
    requires Sound(s, lo, fs, hi) && lo2 <= lo
    ensures Sound(s, lo2, fs, hi)
  {
  }

  /** Every frame taken checks, and they come in order and do not overlap. */
  lemma {:induction false} FramesAreSound(s: seq<bv8>, i: nat)
    requires i <= |s|
    ensures Sound(s, i, Match(s, i).frames, Match(s, i).rest)
    decreases |s| - i
  {
    hide Crc, FrameLen, Sound, FrameAt;
    if i == |s| || (s[i] == HDR && i + 1 == |s|) {
      SoundNone(s, i);
    }
    if i < |s| {
      if s[i] != HDR {
        FramesAreSound(s, i + 1);
        SoundWider(s, i + 1, i, Match(s, i + 1).frames, Match(s, i + 1).rest);
      } else if i + 1 < |s| {
        var len := FrameLen(s[i + 1]);
        if len == 0 || (i + len <= |s| && Crc(0, s[i..i + len - 1]) != s[i + len - 1]) {
          FramesAreSound(s, i + 1);
          SoundWider(s, i + 1, i, Match(s, i + 1).frames, Match(s, i + 1).rest);
        } else if i + len > |s| {
          SoundNone(s, i);
        } else {
          FramesAreSound(s, i + len);
          FrameHere(s, i);
          SoundCons(s, i, Frame(i, len), Match(s, i + len).frames, Match(s, i + len).rest);
        }
      }
    }
  }

  ghost predicate Complete(s: seq<bv8>, fs: seq<Frame>) {
    forall f: Frame {:trigger FrameAt(s, f)} :: FrameAt(s, f) ==> Covered(fs, f)
  }

  /** `f` was taken, or begins inside a frame that was taken before it. */
  predicate Covered(fs: seq<Frame>, f: Frame) {
    f in fs || exists g :: g in fs && g.at < f.at < g.End()
  }

  lemma {:induction false} FrameCovered(s: seq<bv8>, i: nat, f: Frame)
    requires i <= f.at && FrameAt(s, f)
    ensures Covered(Match(s, i).frames, f)
    decreases |s| - i
  {
    hide Crc, FrameLen;
    if s[i] != HDR {
      FrameCovered(s, i + 1, f);
    } else {
      assert s[f.at..f.End()][1] == s[f.at + 1];
      var len := FrameLen(s[i + 1]);
      if i == f.at {
        assert s[f.at..f.End()][..len - 1] == s[i..i + len - 1];
        assert f == Frame(i, len) && f == Match(s, i).frames[0];
      } else if len == 0 || (i + len <= |s| && Crc(0, s[i..i + len - 1]) != s[i + len - 1]) {
        FrameCovered(s, i + 1, f);
      } else {
        var g, r := Frame(i, len), Match(s, i);
        assert i + len <= |s|;
        assert g == r.frames[0];
        if f.at >= i + len {
          FrameCovered(s, i + len, f);
          assert r.frames[1..] == Match(s, i + len).frames;
        }
      }
    }
  }

  /** No frame is missed: one that checks is taken, unless it begins inside one that was taken before. */
  lemma FramesAreComplete(s: seq<bv8>)
    ensures Complete(s, Match(s, 0).frames)
  {
    forall f: Frame | FrameAt(s, f) ensures Covered(Match(s, 0).frames, f) {
      FrameCovered(s, 0, f);
    }
  }

  /** Sound and complete leaves no choice: these are the frames of the stream. */
  lemma {:induction false} FramesAreUnique(s: seq<bv8>, fs: seq<Frame>, gs: seq<Frame>, k: nat)
    requires Sound(s, 0, fs, |s|) && Complete(s, fs) && Sound(s, 0, gs, |s|) && Complete(s, gs)
    requires k <= |fs| && k <= |gs| && fs[..k] == gs[..k]
    ensures fs == gs
    decreases |fs| - k
  {
    hide FrameAt, Complete;
    if k < |fs| {
      NextIsCovered(s, fs, gs, k);
      if k < |gs| {
        NextIsCovered(s, gs, fs, k);
        SameLength(s, fs[k], gs[k]);
      }
      FramesAreUnique(s, fs, gs, k + 1);
    } else if k < |gs| {
      NextIsCovered(s, gs, fs, k);
    }
  }

  /** The next frame of one answer is not before the next one of the other. */
  lemma NextIsCovered(s: seq<bv8>, fs: seq<Frame>, gs: seq<Frame>, k: nat)
    requires Sound(s, 0, fs, |s|) && Sound(s, 0, gs, |s|) && Complete(s, gs)
    requires k < |fs| && k <= |gs| && fs[..k] == gs[..k]
    ensures k < |gs| && gs[k].at <= fs[k].at
  {
    hide FrameAt, Complete, Covered;
    var f := fs[k];
    var j := Coverer(s, gs, f);
    FrameIsLong(s, f);
    if j < k {
      Same(fs, gs, k, j);
      assert false;
    }
    assert k < j ==> gs[k].End() <= gs[j].at;
  }

  lemma Same(fs: seq<Frame>, gs: seq<Frame>, k: nat, j: nat)
    requires j < k <= |fs| && k <= |gs| && fs[..k] == gs[..k]
    ensures fs[j] == gs[j]
  {
    assert fs[..k][j] == gs[..k][j];
  }

  lemma Coverer(s: seq<bv8>, gs: seq<Frame>, f: Frame) returns (j: nat)
    requires Complete(s, gs) && FrameAt(s, f)
    ensures j < |gs| && (gs[j] == f || gs[j].at < f.at < gs[j].End())
  {
    assert Covered(gs, f);
    j :| j < |gs| && (gs[j] == f || gs[j].at < f.at < gs[j].End());
  }

  lemma FrameIsLong(s: seq<bv8>, f: Frame)
    requires FrameAt(s, f)
    ensures f.len >= 3
  {
    assert |s[f.at..f.End()]| == f.len;
  }

  lemma SameLength(s: seq<bv8>, f: Frame, g: Frame)
    requires FrameAt(s, f) && FrameAt(s, g) && f.at == g.at
    ensures f == g
  {
    assert s[f.at..f.End()][1] == s[g.at..g.End()][1] == s[f.at + 1];
  }

  /** Every frame of a stream is there as soon as its last byte is, and not before. */
  lemma ReportedAtItsEnd(s: seq<bv8>, f: Frame)
    requires f in Match(s, 0).frames
    ensures 0 < f.End() <= |s|
    ensures f in Match(s[..f.End()], 0).frames && f !in Match(s[..f.End() - 1], 0).frames
  {
    hide Match, FrameAt, Sound;
    SoundMember(s, f);
    var e := f.End();
    var p := s[..e];
    FrameInPrefix(s, f);
    FrameCovered(p, 0, f);
    if f !in Match(p, 0).frames {
      var g :| g in Match(p, 0).frames && g.at < f.at < g.End();
      KeptFrame(s, e, g);
      NoOverlap(s, g, f);
    }
    if f in Match(s[..e - 1], 0).frames {
      SoundMember(s[..e - 1], f);
    }
  }

  lemma KeptFrame(s: seq<bv8>, k: nat, g: Frame)
    requires k <= |s| && g in Match(s[..k], 0).frames
    ensures g in Match(s, 0).frames
  {
    hide Match;
    MatchGoesOn(s[..k], s[k..], 0);
    assert s == s[..k] + s[k..];
  }

  lemma FrameInPrefix(s: seq<bv8>, f: Frame)
    requires FrameAt(s, f)
    ensures FrameAt(s[..f.End()], f)
  {
    assert s[..f.End()][f.at..f.End()] == s[f.at..f.End()];
  }

  lemma SoundMember(s: seq<bv8>, f: Frame)
    requires f in Match(s, 0).frames
    ensures FrameAt(s, f) && 0 < f.End() <= |s|
  {
    FramesAreSound(s, 0);
    FrameIsLong(s, f);
  }

  lemma NoOverlap(s: seq<bv8>, g: Frame, f: Frame)
    requires f in Match(s, 0).frames && g in Match(s, 0).frames && g.at < f.at
    ensures g.End() <= f.at
  {
    hide Match;
    var fs := Match(s, 0).frames;
    FramesAreSound(s, 0);
    SoundMember(s, f);
    var i :| 0 <= i < |fs| && fs[i] == f;
    var j :| 0 <= j < |fs| && fs[j] == g;
  }

  // ---- what a frame means ---------------------------------------------------

  datatype Event = Nothing | Toggle | Start | Stop

  function EventOf(f: seq<bv8>): Event
    requires |f| >= 3
  {
    if f[1] != 0x01 then Nothing
    else match f[2]
      case 0x01 => Toggle
      case 0x03 => Start
      case 0x04 => Stop
      case _ => Nothing
  }

  /** Two frames never differ in one byte alone. */
  lemma FramesDifferMore(f: seq<bv8>, i: nat, x: bv8)
    requires IsFrame(f) && i < |f| && x != f[i]
    ensures !IsFrame(f[i := x])
  {
    hide Crc;
    var d, n := f[i := x], |f| - 1;
    assert f == f[..n] + [f[n]] && d == d[..n] + [d[n]];
    CrcOfClosed(f[..n], f[n]);
    CrcOfClosed(d[..n], d[n]);
    OneByteDetected(f, i, x);
  }

  /** In four bytes there is no room for a camera control frame next to anything else. */
  lemma ControlFillsAll(d: seq<bv8>, g: Frame)
    requires FrameAt(d, g) && |d| <= 4 && d[g.at..g.End()][1] == 0x01
    ensures |d| == 4 && IsFrame(d)
  {
    hide Crc;
    assert d[g.at..g.End()] == d;
  }

  /** A frame with one byte changed, alone on the line, never starts, stops or toggles the recording. */
  lemma DamagedFrameIsQuiet(f: seq<bv8>, i: nat, x: bv8, g: Frame)
    requires IsFrame(f) && i < |f| && x != f[i]
    requires FrameAt(f[i := x], g)
    ensures EventOf(f[i := x][g.at..g.End()]) == Nothing
  {
    hide Crc;
    FramesDifferMore(f, i, x);
    if f[i := x][g.at..g.End()][1] == 0x01 {
      ControlFillsAll(f[i := x], g);
      assert false;
    }
  }

  // ---- the parser ------------------------------------------------------------

  const PROTO_VERSION: bv8 := 0x01
  const FEATURES: bv16 := 0x00C5

  /** A 32-bit counter after `k` more. */
  function Count(c: u32, k: nat): u32 {
    (c + k) % TWO_32
  }

  lemma CountMore(c: u32, j: nat, k: nat)
    ensures Count(Count(c, j), k) == Count(c, j + k) && Count(c, 0) == c
  {
  }

  lemma CountIs(c: u32, k: nat)
    ensures Count(c, k) == (c + k) % 0x1_0000_0000
  {
  }

  function Skip(b: seq<bv8>): seq<bv8> {
    if b == [] || b[0] == HDR then b else Skip(b[1..])
  }

  /** Dropping noise from the buffer is what the matcher does with it. */
  lemma {:induction false} SkipIsMatch(s: seq<bv8>, i: nat)
    requires i <= |s|
    ensures var q := |s| - |Skip(s[i..])|; i <= q && Skip(s[i..]) == s[q..] && Match(s, i) == Match(s, q)
    ensures Skip(s[i..]) != [] ==> Skip(s[i..])[0] == HDR
    decreases |s| - i
  {
    hide Crc, FrameLen;
    if i < |s| && s[i] != HDR {
      assert s[i..][1..] == s[i + 1..];
      SkipIsMatch(s, i + 1);
    }
  }

  class Rcam {
    const tx: bool
    const buf: array<bv8>
    var n: nat
    var rxFrames: u32
    var crcErrors: u32
    var resyncs: u32
    /** The replies, in order. */
    var sent: seq<seq<bv8>>
    /** What was fed since the line was last quiet. */
    ghost var fed: seq<bv8>

    constructor (reply: bool)
      ensures Valid() && fresh(buf) && fed == [] && sent == [] && tx == reply && rxFrames == crcErrors == resyncs == 0
    {
      tx := reply;
      buf := new bv8[4];
      n, rxFrames, crcErrors, resyncs, sent, fed := 0, 0, 0, 0, [], [];
    }

    /** The buffer is the unmatched suffix of what was fed, three bytes at most. */
    ghost predicate Valid()
      reads this, buf
    {
      && buf.Length == 4 && n <= 3 && buf[..n] == fed[Match(fed, 0).rest..]
    }

    /** Drops the first byte and what follows it up to the next header. */
    method Resync()
      requires buf.Length == 4 && 0 < n <= 4
      modifies buf, this`n, this`resyncs
      ensures n <= 4 && buf[..n] == Skip(old(buf[1..n])) && n < old(n) && resyncs == Count(old(resyncs), 1)
    {
      ghost var b := buf[..n];
      var i := 1;
      while i < n && buf[i] != HDR
        invariant 1 <= i <= n == |b| && buf[..n] == b && Skip(b[1..]) == Skip(b[i..])
      {
        assert b[i..][1..] == b[i + 1..];
        i := i + 1;
      }
      assert Skip(b[i..]) == b[i..];
      ghost var from := i;
      var k := 0;
      while i < n
        invariant n == |b| == old(n) && from <= i <= n && k == i - from && resyncs == old(resyncs)
        invariant (forall j :: 0 <= j < k ==> buf[j] == b[from + j]) && forall j :: i <= j < n ==> buf[j] == b[j]
      {
        buf[k] := buf[i];
        k, i := k + 1, i + 1;
      }
      n := k;
      assert buf[..n] == b[from..];
      resyncs := Count(resyncs, 1);
    }

    method BufCrc(m: nat) returns (crc: bv8)
      requires m <= buf.Length
      ensures crc == Crc(0, buf[..m])
    {
      crc := 0;
      for i := 0 to m
        invariant crc == Crc(0, buf[..i])
      {
        assert buf[..i + 1][..i] == buf[..i];
        crc := CrcByte(crc, buf[i]);
      }
    }

    method SendDeviceInfo()
      modifies this`sent
      ensures sent == old(sent) + if tx then [DeviceInfo()] else []
    {
      var rep := [HDR, PROTO_VERSION, (FEATURES & 0xFF) as bv8, (FEATURES >> 8) as bv8];
      assert rep == [HDR, PROTO_VERSION, 0xC5, 0x00];
      var crc := 0;
      for i := 0 to 4
        invariant crc == Crc(0, rep[..i]) && sent == old(sent)
      {
        assert rep[..i + 1][..i] == rep[..i];
        crc := CrcByte(crc, rep[i]);
      }
      assert rep[..4] == rep;
      if tx {
        sent := sent + [rep + [crc]];
      }
    }

    /** A whole frame that checks is in the buffer. */
    method Dispatch() returns (ev: Event)
      requires buf.Length == 4 && 3 <= n <= 4
      modifies this`n, this`rxFrames, this`sent
      ensures n == 0 && rxFrames == Count(old(rxFrames), 1)
      ensures ev == EventOf(old(buf[..n])) && sent == old(sent) + Reply(old(buf[..n]), tx)
      ensures (ev == Toggle <==> old(buf[1]) == 1 && old(buf[2]) == 1) && (ev == Start <==> old(buf[1]) == 1 && old(buf[2]) == 3)
      ensures ev == Stop <==> old(buf[1]) == 1 && old(buf[2]) == 4
      ensures sent != old(sent) <==> tx && old(buf[1]) == 0
    {
      ev := Nothing;
      match buf[1] {
        case 0x00 => SendDeviceInfo();
        case 0x01 =>
          match buf[2] {
            case 0x01 => ev := Toggle;
            case 0x03 => ev := Start;
            case 0x04 => ev := Stop;
            case _ =>
          }
        case _ =>
      }
      rxFrames := Count(rxFrames, 1);
      n := 0;
    }

    /** The buffer holds the stream from `at` on. */
    ghost predicate Holds(at: nat)
      reads this, buf
    {
      buf.Length == 4 && n <= 4 && at + n == |fed| && buf[..n] == fed[at..] && (n > 0 ==> buf[0] == HDR)
    }

    /** One turn of the framer that costs a byte. */
    method DropByte(ghost at: nat)
      requires Holds(at) && n > 0
      modifies buf, this`n, this`resyncs
      ensures n < old(n) && Holds(|fed| - n) && Match(fed, at + 1) == Match(fed, |fed| - n)
      ensures resyncs == Count(old(resyncs), 1)
    {
      hide Match;
      assert buf[1..n] == fed[at + 1..];
      SkipIsMatch(fed, at + 1);
      Resync();
    }

    lemma StreamAt(at: nat, i: nat)
      requires Holds(at) && i < n
      ensures at + i < |fed| && buf[i] == fed[at + i]
    {
      FrontOf(buf[..n], fed, at, i);
      assert buf[i] == buf[..n][i];
    }

    /** The CRC of the first bytes in the buffer, and the byte behind them, are those of the stream from `at` on. */
    method CrcOfFront(ghost at: nat, m: nat) returns (crc: bv8)
      requires Holds(at) && m < n
      ensures at + m < |fed| && crc == Crc(0, fed[at..at + m]) && buf[m] == fed[at + m]
    {
      hide Crc;
      FrontOf(buf[..n], fed, at, m);
      StreamAt(at, m);
      assert buf[..m] == buf[..n][..m];
      crc := BufCrc(m);
    }

    /** One turn of the framer: a byte less, an event, or a buffer that has to wait. */
    method Turn(ghost at: nat) returns (again: bool, ev: Event, ghost miss: nat)
      requires Holds(at) && n >= 2 && (n == 4 ==> FrameLen(buf[1]) != 3)
      modifies buf, this`n, this`rxFrames, this`crcErrors, this`resyncs, this`sent
      ensures again ==> n < old(n) && Holds(|fed| - n) && crcErrors == Count(old(crcErrors), miss)
      ensures again ==> var r := Match(fed, |fed| - n); Match(fed, at) == r.(bad := r.bad + miss, drops := r.drops + 1)
      ensures resyncs == Count(old(resyncs), if again then 1 else 0)
      ensures again || n > 0 ==> ev == Nothing && rxFrames == old(rxFrames) && sent == old(sent)
      ensures !again ==> crcErrors == old(crcErrors) && (n == 0 || n == old(n))
      ensures !again && n > 0 ==> Holds(at) && n < 4 && Match(fed, at) == Outcome([], at, 0, 0)
      ensures !again && n == 0 ==> Accepted(fed, at, old(rxFrames), old(sent), ev)
      ensures !again && n == 0 ==> Match(fed, at) == Outcome([Frame(at, |fed| - at)], |fed|, 0, 0)
    {
      hide Crc, FrameLen, Match, Count;
      CountMore(crcErrors, 0, 0);
      CountMore(resyncs, 0, 0);
      again, ev, miss := true, Nothing, 0;
      StreamAt(at, 0);
      StreamAt(at, 1);
      MatchTurn(fed, at);
      var len := FrameLen(buf[1]);
      if len == 0 {
        DropByte(at);
      } else if n < len {
        again := false;
      } else {
        var crc := CrcOfFront(at, len - 1);
        if crc != buf[len - 1] {
          crcErrors, miss := Count(crcErrors, 1), 1;
          DropByte(at);
        } else {
          MatchShort(fed, |fed|);
          ev := Dispatch();
          again := false;
        }
      }
    }

    /** A frame from `at` to the end of the stream was counted, answered and reported. */
    ghost predicate Accepted(s: seq<bv8>, at: nat, frames: u32, replies: seq<seq<bv8>>, ev: Event)
      reads this
    {
      at + 3 <= |s| && rxFrames == Count(frames, 1) && sent == replies + Reply(s[at..], tx) && ev == EventOf(s[at..])
    }

    /** Runs the framer over what is buffered; a byte dropped may bring up another frame. */
    method Scan(ghost from: nat) returns (ev: Event)
      requires Holds(from) && n >= 2 && (n == 4 ==> FrameLen(buf[1]) != 3)
      modifies buf, this`n, this`rxFrames, this`crcErrors, this`resyncs, this`sent
      ensures var r := Match(fed, from);
        && n <= 3 && Holds(r.rest)
        && crcErrors == Count(old(crcErrors), r.bad) && resyncs == Count(old(resyncs), r.drops)
        && (r.frames == [] ==> ev == Nothing && rxFrames == old(rxFrames) && sent == old(sent))
        && (r.frames != [] ==> |r.frames| == 1 && r.frames[0].End() == |fed| && Accepted(fed, r.frames[0].at, old(rxFrames), old(sent), ev))
    {
      hide Crc, FrameLen, EventOf, Reply, Match, Count, Accepted;
      CountMore(crcErrors, 0, 0);
      CountMore(resyncs, 0, 0);
      ghost var at: nat, bad, drops := from, 0, 0;
      while n >= 2
        invariant Holds(at) && (n == 4 ==> FrameLen(buf[1]) != 3)
        invariant var r := Match(fed, at); Match(fed, from) == r.(bad := r.bad + bad, drops := r.drops + drops)
        invariant crcErrors == Count(old(crcErrors), bad) && resyncs == Count(old(resyncs), drops)
        invariant rxFrames == old(rxFrames) && sent == old(sent)
        decreases n
      {
        var again;
        ghost var miss;
        CountMore(resyncs, 0, 0);
        again, ev, miss := Turn(at);
        if !again {
          return;
        }
        CountMore(old(crcErrors), bad, miss);
        CountMore(old(resyncs), drops, 1);
        at, bad, drops := |fed| - n, bad + miss, drops + 1;
      }
      MatchShort(fed, at);
      if n > 0 {
        StreamAt(at, 0);
      }
      return Nothing;
    }

    /** A byte for a buffer that holds the stream from `from` up to it. */
    method Take(b: bv8, ghost from: nat) returns (ev: Event)
      requires buf.Length == 4 && n <= 3 && from + n + 1 == |fed| && buf[..n] + [b] == fed[from..] && Partial(buf[..n])
      modifies buf, this`n, this`rxFrames, this`crcErrors, this`resyncs, this`sent
      ensures var r := Match(fed, from);
        && n <= 3 && Holds(r.rest)
        && crcErrors == Count(old(crcErrors), r.bad) && resyncs == Count(old(resyncs), r.drops)
        && (r.frames == [] ==> ev == Nothing && rxFrames == old(rxFrames) && sent == old(sent))
        && (r.frames != [] ==> |r.frames| == 1 && r.frames[0].End() == |fed| && Accepted(fed, r.frames[0].at, old(rxFrames), old(sent), ev))
    {
      hide Crc, FrameLen, EventOf, Reply, Match, Count;
      CountMore(crcErrors, 0, 0);
      CountMore(resyncs, 0, 0);
      if n == 0 {
        MatchShort(fed, from);
        if b != HDR {
          return Nothing;
        }
        buf[0], n := b, 1;
        return Nothing;
      }
      assert buf[0] == buf[..n][0] == HDR && (n >= 2 ==> buf[1] == buf[..n][1]);
      buf[n] := b;
      n := n + 1;
      assert buf[..n] == fed[from..];
      ev := Scan(from);
    }

    /** One byte from the line, told in terms of the frames in what was fed. */
    method Receive(b: bv8) returns (ev: Event)
      requires Valid()
      modifies this, buf
      ensures Valid() && fed == old(fed) + [b]
      ensures var was, now := Match(old(fed), 0), Match(fed, 0);
        && was.frames <= now.frames && |now.frames| <= |was.frames| + 1 && was.bad <= now.bad && was.drops <= now.drops
        && crcErrors == Count(old(crcErrors), now.bad - was.bad)
        && resyncs == Count(old(resyncs), now.drops - was.drops)
        && (now.frames == was.frames ==> ev == Nothing && rxFrames == old(rxFrames) && sent == old(sent))
        && (now.frames != was.frames ==> var f := now.frames[|was.frames|];
             f.End() == |fed| && Accepted(fed, f.at, old(rxFrames), old(sent), ev))
    {
      hide Crc, FrameLen, EventOf, Reply, Match, Count;
      ghost var was := Match(fed, 0);
      RestIsPartial(fed, 0);
      MatchGoesOn(fed, [b], 0);
      fed := fed + [b];
      ev := Take(b, was.rest);
    }

    /**
     * One byte from the line. A frame is reported exactly when its last byte arrives: as an event if it is a camera
     * control frame with one of three actions, with an answer if it asks for one, and it is counted.
     */
    method Feed(b: bv8) returns (ev: Event)
      requires Valid()
      modifies this, buf
      ensures Valid() && fed == old(fed) + [b]
      ensures var was, now := Match(old(fed), 0), Match(fed, 0);
        && was.frames <= now.frames && |now.frames| <= |was.frames| + 1 && was.bad <= now.bad && was.drops <= now.drops
        && crcErrors == (old(crcErrors) + now.bad - was.bad) % 0x1_0000_0000
        && resyncs == (old(resyncs) + now.drops - was.drops) % 0x1_0000_0000
      ensures var was, now := Match(old(fed), 0).frames, Match(fed, 0).frames;
        if now == was then ev == Nothing && sent == old(sent) && rxFrames == old(rxFrames)
        else
          var a := now[|was|].at;
          && now[|was|].End() == |fed| && a + 3 <= |fed| && rxFrames == (old(rxFrames) + 1) % 0x1_0000_0000
          && (ev == Toggle <==> fed[a + 1] == 1 && fed[a + 2] == 1)
          && (ev == Start <==> fed[a + 1] == 1 && fed[a + 2] == 3)
          && (ev == Stop <==> fed[a + 1] == 1 && fed[a + 2] == 4)
          && sent == old(sent) + if tx && fed[a + 1] == 0 then [[0xCC, 0x01, 0xC5, 0x00, 0xBA]] else []
    {
      hide Match, Count, Accepted, Rcam.Valid;
      ghost var was := Match(fed, 0);
      ev := Receive(b);
      ghost var now := Match(fed, 0);
      CountIs(old(crcErrors), now.bad - was.bad);
      CountIs(old(resyncs), now.drops - was.drops);
      if now.frames != was.frames {
        AcceptedMeans(now.frames[|was.frames|].at, old(rxFrames), old(sent), ev);
      }
    }

    lemma AcceptedMeans(a: nat, frames: u32, replies: seq<seq<bv8>>, ev: Event)
      requires Accepted(fed, a, frames, replies, ev)
      ensures a + 3 <= |fed| && rxFrames == (frames + 1) % 0x1_0000_0000
      ensures (ev == Toggle <==> fed[a + 1] == 1 && fed[a + 2] == 1) && (ev == Start <==> fed[a + 1] == 1 && fed[a + 2] == 3)
      ensures ev == Stop <==> fed[a + 1] == 1 && fed[a + 2] == 4
      ensures sent == replies + if tx && fed[a + 1] == 0 then [[0xCC, 0x01, 0xC5, 0x00, 0xBA]] else []
    {
      hide Crc;
      var f := fed[a..];
      assert f[1] == fed[a + 1] && f[2] == fed[a + 2];
      DeviceInfoIs();
    }

    /** The line went quiet: what is buffered will never be completed. */
    method Idle()
      requires Valid()
      modifies this`n, this`resyncs, this`fed
      ensures Valid() && fed == [] && n == 0 && resyncs == Count(old(resyncs), if old(n) > 0 then 1 else 0)
    {
      CountMore(resyncs, 0, 0);
      if n > 0 {
        n, resyncs := 0, Count(resyncs, 1);
      }
      fed := [];
    }
  }

  lemma FrontOf(b: seq<bv8>, s: seq<bv8>, at: nat, k: nat)
    requires at <= |s| && b == s[at..] && k < |b|
    ensures b[..k] == s[at..at + k] && b[k] == s[at + k]
  {
  }

  lemma MatchTurn(s: seq<bv8>, i: nat)
    requires i + 2 <= |s| && s[i] == HDR
    ensures var len, skip := FrameLen(s[i + 1]), Match(s, i + 1);
      Match(s, i) ==
      if len == 0 then skip.(drops := skip.drops + 1)
      else if i + len > |s| then Outcome([], i, 0, 0)
      else if Crc(0, s[i..i + len - 1]) != s[i + len - 1] then skip.(bad := skip.bad + 1, drops := skip.drops + 1)
      else Outcome([Frame(i, len)], i + len, 0, 0).Then(Match(s, i + len))
  {
  }

  lemma MatchShort(s: seq<bv8>, i: nat)
    requires i <= |s| <= i + 1
    ensures Match(s, i) == Outcome([], if i < |s| && s[i] != HDR then i + 1 else i, 0, 0)
  {
  }

  function DeviceInfo(): (r: seq<bv8>) {
    var rep := [HDR, PROTO_VERSION, 0xC5, 0x00];
    rep + [Crc(0, rep)]
  }

  lemma DeviceInfoIs()
    ensures DeviceInfo() == [0xCC, 0x01, 0xC5, 0x00, 0xBA]
  {
    hide Crc;
    KnownFrames();
    assert [0xCC, 0x01, 0xC5, 0x00 as bv8] + [0xBA] == [0xCC, 0x01, 0xC5, 0x00, 0xBA];
  }

  /** Only a request for device information is answered. */
  function Reply(f: seq<bv8>, tx: bool): seq<seq<bv8>>
    requires |f| >= 3
  {
    if f[1] == 0x00 && tx then [DeviceInfo()] else []
  }

  // ---- what the counters count ----

  /** A header byte before the unmatched suffix that no frame reported covers. */
  ghost predicate Missed(s: seq<bv8>, i: nat, p: int)
    requires i <= |s|
  {
    && i <= p < Match(s, i).rest && s[p] == 0xCC
    && forall f :: f in Match(s, i).frames ==> !(f.at <= p < f.End())
  }

  /** Such a header with a known command: its CRC was wrong. */
  ghost predicate MissedFrame(s: seq<bv8>, i: nat, p: int)
    requires i <= |s|
  {
    Missed(s, i, p) && p + 1 < |s| && s[p + 1] as int <= 4
  }

  ghost function Headers(s: seq<bv8>, i: nat): (r: set<int>)
    requires i <= |s|
    ensures forall p :: p in r <==> Missed(s, i, p)
  {
    hide Match;
    set p | 0 <= p < |s| && Missed(s, i, p)
  }

  ghost function BadFrames(s: seq<bv8>, i: nat): (r: set<int>)
    requires i <= |s|
    ensures forall p :: p in r <==> MissedFrame(s, i, p)
  {
    hide Match;
    set p | 0 <= p < |s| && MissedFrame(s, i, p)
  }

  /** A resync is counted for each header that no frame began with, a CRC error for those among them with a known command. */
  lemma {:induction false} CountersMean(s: seq<bv8>, i: nat)
    requires i <= |s|
    ensures Match(s, i).drops == |Headers(s, i)| && Match(s, i).bad == |BadFrames(s, i)|
    decreases |s| - i
  {
    hide Match, TurnAt, Missed, Headers, BadFrames;
    if i == |s| || TurnAt(s, i).Waits? {
      NoneMissed(s, i);
    } else {
      var n := if TurnAt(s, i).Takes? then i + TurnAt(s, i).len else i + 1;
      MatchByTurns(s, i);
      CountersMean(s, n);
      if TurnAt(s, i).Takes? {
        SetsAfterFrame(s, i, TurnAt(s, i).len);
      } else {
        SetsAfterDrop(s, i, TurnAt(s, i).bad, TurnAt(s, i).drops);
      }
    }
  }

  lemma SetsAfterFrame(s: seq<bv8>, i: nat, len: nat)
    requires i < |s| && TurnAt(s, i) == Takes(len)
    ensures Headers(s, i) == Headers(s, i + len) && BadFrames(s, i) == BadFrames(s, i + len)
  {
    hide Match, TurnAt, Missed, Headers, BadFrames;
    AfterFrame(s, i, len);
    assert forall p :: p in Headers(s, i) <==> p in Headers(s, i + len);
    assert forall p :: p in BadFrames(s, i) <==> p in BadFrames(s, i + len);
  }

  lemma SetsAfterDrop(s: seq<bv8>, i: nat, bad: nat, drops: nat)
    requires i < |s| && TurnAt(s, i) == Drops(bad, drops)
    ensures |Headers(s, i)| == |Headers(s, i + 1)| + drops && |BadFrames(s, i)| == |BadFrames(s, i + 1)| + bad
  {
    hide Match, TurnAt, Missed, Headers, BadFrames;
    AfterDrop(s, i, bad, drops);
    var one, more := if drops == 1 then {i as int} else {}, if bad == 1 then {i as int} else {};
    assert forall p :: p in Headers(s, i) <==> p in Headers(s, i + 1) + one;
    assert forall p :: p in BadFrames(s, i) <==> p in BadFrames(s, i + 1) + more;
    assert Headers(s, i) == Headers(s, i + 1) + one && BadFrames(s, i) == BadFrames(s, i + 1) + more;
    assert i !in Headers(s, i + 1) && i !in BadFrames(s, i + 1);
  }

  lemma NoneMissed(s: seq<bv8>, i: nat)
    requires i <= |s| && (i < |s| ==> TurnAt(s, i).Waits?)
    ensures Headers(s, i) == {} && BadFrames(s, i) == {} && Match(s, i).drops == Match(s, i).bad == 0
  {
    hide Match, TurnAt;
    if i == |s| {
      MatchAtEnd(s);
    } else {
      MatchByTurns(s, i);
    }
  }

  lemma AfterFrame(s: seq<bv8>, i: nat, len: nat)
    requires i < |s| && TurnAt(s, i) == Takes(len)
    ensures forall p :: Missed(s, i, p) <==> Missed(s, i + len, p)
  {
    hide TurnAt, Match;
    MatchByTurns(s, i);
    MatchInOrder(s, i + len);
    forall p ensures Missed(s, i, p) <==> Missed(s, i + len, p) {
      assert Match(s, i).frames == [Frame(i, len)] + Match(s, i + len).frames;
      if Missed(s, i, p) {
        assert Frame(i, len) in Match(s, i).frames;
      }
    }
  }

  lemma MatchInOrder(s: seq<bv8>, i: nat)
    requires i <= |s|
    ensures forall f :: f in Match(s, i).frames ==> i <= f.at
  {
    hide Match;
    FramesAreSound(s, i);
  }

  lemma AfterDrop(s: seq<bv8>, i: nat, bad: nat, drops: nat)
    requires i < |s| && TurnAt(s, i) == Drops(bad, drops)
    ensures drops <= 1 && (drops == 1 <==> s[i] == 0xCC) && bad <= drops && !Missed(s, i + 1, i)
    ensures drops == 1 ==> (bad == 1 <==> i + 1 < |s| && s[i + 1] as int <= 4)
    ensures forall p :: Missed(s, i, p) <==> Missed(s, i + 1, p) || (p == i && drops == 1)
  {
    hide Match, Crc;
    MatchByTurns(s, i);
    MatchInOrder(s, i + 1);
    assert Match(s, i).frames == Match(s, i + 1).frames;
  }

  // ---- runs ----

  lemma PartOfFrame(f: seq<bv8>, k: nat)
    requires IsFrame(f) && k <= |f|
    ensures Match(f[..k], 0) == if k < |f| then Outcome([], 0, 0, 0) else Outcome([Frame(0, |f|)], |f|, 0, 0)
  {
    hide Match, Crc, TurnAt;
    if k == 0 {
      MatchAtEnd(f[..0]);
    } else {
      TurnOfPart(f, k);
      MatchByTurns(f[..k], 0);
      if k == |f| {
        MatchAtEnd(f[..k]);
      }
    }
  }

  lemma TurnOfPart(f: seq<bv8>, k: nat)
    requires IsFrame(f) && 0 < k <= |f|
    ensures TurnAt(f[..k], 0) == if k < |f| then Waits else Takes(|f|)
  {
    hide Crc;
    if k == |f| {
      assert f[..k] == f && f[0..|f| - 1] == f[..|f| - 1];
    }
  }

  /** A frame alone on the line. */
  method Receives(f: seq<bv8>) returns (ev: Event, sent: seq<seq<bv8>>)
    requires IsFrame(f)
    ensures (ev == Toggle <==> f[1] == 1 && f[2] == 1) && (ev == Start <==> f[1] == 1 && f[2] == 3) && (ev == Stop <==> f[1] == 1 && f[2] == 4)
    ensures sent == if f[1] == 0 then [[0xCC, 0x01, 0xC5, 0x00, 0xBA]] else []
  {
    hide Match, Crc;
    var r := new Rcam(true);
    ev := Nothing;
    PartOfFrame(f, 0);
    for i := 0 to |f|
      invariant fresh(r) && fresh(r.buf) && r.Valid() && r.fed == f[..i] && r.tx
      invariant i < |f| ==> r.sent == []
      invariant i == |f| ==> r.sent == if f[1] == 0 then [[0xCC, 0x01, 0xC5, 0x00, 0xBA]] else []
      invariant i == |f| ==> (ev == Toggle <==> f[1] == 1 && f[2] == 1) && (ev == Start <==> f[1] == 1 && f[2] == 3) && (ev == Stop <==> f[1] == 1 && f[2] == 4)
    {
      PartOfFrame(f, i);
      PartOfFrame(f, i + 1);
      ev := r.Feed(f[i]);
      assert f[..i] + [f[i]] == f[..i + 1];
    }
    sent := r.sent;
  }

  /** The frames known from the field, and a request for device information. */
  method KnownRuns() returns (events: seq<Event>, replies: seq<seq<bv8>>)
    ensures events == [Toggle, Start, Stop] && replies == [[0xCC, 0x01, 0xC5, 0x00, 0xBA]]
  {
    hide Crc;
    KnownFrames();
    assert [0xCC, 0x01, 0x01, 0xE7 as bv8][..3] == [0xCC, 0x01, 0x01] && [0xCC, 0x01, 0x03, 0x98 as bv8][..3] == [0xCC, 0x01, 0x03];
    assert [0xCC, 0x01, 0x04, 0xCC as bv8][..3] == [0xCC, 0x01, 0x04] && [0xCC, 0x00, 0x60 as bv8][..2] == [0xCC, 0x00];
    var toggle, _ := Receives([0xCC, 0x01, 0x01, 0xE7]);
    var start, _ := Receives([0xCC, 0x01, 0x03, 0x98]);
    var stop, _ := Receives([0xCC, 0x01, 0x04, 0xCC]);
    var _, answer := Receives([0xCC, 0x00, 0x60]);
    return [toggle, start, stop], answer;
  }
}
