/** Where the next clip goes: the scan of the card at boot, and what names keep over any history of a card. */
module DcfCard {
  import opened DcfNames

  /** What a name in a directory stands for. A file remembers when it was made. */
  datatype Entry = File(born: nat) | Folder(files: map<string, Entry>)

  type Dcim = map<string, Entry>

  predicate IsFolder(c: Dcim, d: string) {
    d in c && c[d].Folder?
  }

  predicate IsSession(c: Dcim, d: string) {
    IsFolder(c, d) && SessionOf(d) >= 0
  }

  predicate IsClip(c: Dcim, d: string, f: string) {
    IsSession(c, d) && f in c[d].files && c[d].files[f].File? && ClipOf(f) >= 0
  }

  function Born(c: Dcim, d: string, f: string): nat
    requires IsClip(c, d, f)
  {
    c[d].files[f].born
  }

  predicate CString(s: string) {
    '\0' !in s
  }

  predicate CNames(m: map<string, Entry>) {
    forall n :: n in m ==> CString(n)
  }

  ghost predicate AllNames(c: Dcim) {
    CNames(c) && forall d :: IsFolder(c, d) ==> CNames(c[d].files)
  }

  /** The session and the index that follow the highest on the card. */
  ghost predicate Scanned(c: Dcim, dir: nat, index: nat) {
    SessionScanned(c, dir) && IndexScanned(c, index)
  }

  ghost predicate SessionScanned(c: Dcim, dir: nat) {
    && DIR_MIN <= dir && (forall d :: IsSession(c, d) ==> SessionOf(d) < dir)
    && (dir == DIR_MIN || exists d :: IsSession(c, d) && SessionOf(d) == dir - 1)
  }

  ghost predicate IndexScanned(c: Dcim, index: nat) {
    && 1 <= index && (forall d, f :: IsClip(c, d, f) ==> ClipOf(f) < index)
    && (index == 1 || exists d, f :: IsClip(c, d, f) && ClipOf(f) == index - 1)
  }

  /** A directory listing in some order: every name once, with whether it is a directory. */
  ghost predicate Lists(names: seq<(string, bool)>, m: map<string, Entry>) {
    && (forall k :: 0 <= k < |names| ==> names[k].0 in m && names[k].1 == m[names[k].0].Folder?)
    && (forall n :: n in m ==> (n, m[n].Folder?) in names)
  }

  class Card {
    var dcim: Dcim

    /** No call on the card fails for a reason of its own. */
    const sound: bool

    constructor (c: Dcim, s: bool)
      ensures dcim == c && sound == s
    {
      dcim, sound := c, s;
    }

    /** Whether one call gets through. */
    method Works() returns (ok: bool)
      ensures sound ==> ok
    {
      ok := *;
      ok := ok || sound;
    }

    ghost predicate Valid()
      reads this
    {
      AllNames(dcim)
    }

    method ListAll(m: map<string, Entry>) returns (names: seq<(string, bool)>)
      ensures Lists(names, m)
    {
      names := [];
      var rest := m.Keys;
      while rest != {}
        invariant rest <= m.Keys
        invariant forall k :: 0 <= k < |names| ==> names[k].0 in m && names[k].1 == m[names[k].0].Folder?
        invariant forall n :: n in m && n !in rest ==> (n, m[n].Folder?) in names
        decreases rest
      {
        var n :| n in rest;
        names, rest := names + [(n, m[n].Folder?)], rest - {n};
      }
    }

    method ListRoot() returns (ok: bool, names: seq<(string, bool)>)
      ensures (ok ==> Lists(names, dcim)) && (sound ==> ok)
    {
      names := [];
      ok := Works();
      if ok {
        names := ListAll(dcim);
      }
    }

    /** A directory that is not there has no entries. */
    method ListFolder(d: string) returns (ok: bool, names: seq<(string, bool)>)
      ensures ok ==> Lists(names, if d in dcim && dcim[d].Folder? then dcim[d].files else map[])
      ensures sound ==> ok
    {
      names := [];
      ok := Works();
      if ok && d in dcim && dcim[d].Folder? {
        names := ListAll(dcim[d].files);
      }
    }

    /** An empty file, over an older one of that name; a missing directory or one of the file's own name is an error. */
    method MakeFile(d: string, f: string, born: nat) returns (ok: bool)
      modifies this
      ensures dcim == if ok then WithFile(old(dcim), d, f, born) else old(dcim)
      ensures (ok ==> CanHold(old(dcim), d, f)) && (sound && CanHold(old(dcim), d, f) ==> ok)
    {
      ok := Works();
      ok := ok && CanHold(dcim, d, f);
      if ok {
        dcim := WithFile(dcim, d, f, born);
      }
    }

    /** Makes a session directory; that it is there already is as good. */
    method MakeSession(d: string) returns (ok: bool)
      modifies this
      ensures dcim == if ok then WithFolder(old(dcim), d) else old(dcim)
      ensures sound ==> ok
    {
      ok := Works();
      if ok {
        dcim := WithFolder(dcim, d);
      }
    }
  }

  function WithFolder(c: Dcim, d: string): Dcim {
    if d in c then c else c[d := Folder(map[])]
  }

  function WithFile(c: Dcim, d: string, f: string, born: nat): Dcim {
    if IsFolder(c, d) then c[d := Folder(c[d].files[f := File(born)])] else c
  }

  /** A file of that name can be opened for writing. */
  predicate CanHold(c: Dcim, d: string, f: string) {
    IsFolder(c, d) && !(f in c[d].files && c[d].files[f].Folder?)
  }

  /**
   * The clip planned can be made: its numbers are not used up, its directory is there or is still to be made, and
   * neither its directory's name is a file's nor its own name a directory's.
   */
  predicate CanMake(c: Dcim, made: bool, dir: nat, index: nat) {
    var d := SessionDirName(dir);
    dir <= DIR_MAX && index <= IDX_MAX && if d in c then CanHold(c, d, ClipFileName(index)) else !made
  }

  datatype Code = Ok | Full | IoErr

  class Dcf {
    const card: Card
    var sessionDir: nat
    var nextIndex: nat
    var sessionMade: bool

    constructor (c: Card)
      ensures card == c
    {
      card, sessionDir, nextIndex, sessionMade := c, 0, 0, false;
    }

    /** One entry of /DCIM; a file with a session's name does not count. */
    method DcimEntry(name: string, isDir: bool, present: array<bool>, top: nat) returns (high: nat)
      requires CString(name) && present.Length == DIR_MAX + 1 - DIR_MIN
      modifies present
      ensures var v := SessionOf(name);
        if isDir && v >= DIR_MIN then present[..] == old(present[..])[v - DIR_MIN := true] && high == (if v > top then v else top)
        else present[..] == old(present[..]) && high == top
    {
      high := top;
      if isDir {
        var nnn := ParseDirName(name);
        if nnn >= 0 {
          SessionRoundTrip(name, nnn);
          present[nnn - DIR_MIN] := true;
          if nnn > top {
            high := nnn;
          }
        }
      }
    }

    /** Lists /DCIM once, marking the session directories and the highest of them. */
    method MarkSessions(present: array<bool>) returns (ok: bool, top: nat)
      requires card.Valid() && present.Length == DIR_MAX + 1 - DIR_MIN
      modifies present
      ensures ok ==> forall k :: 0 <= k < present.Length ==> (present[k] <==> IsSession(card.dcim, SessionDirName(k + DIR_MIN)))
      ensures ok ==> SessionScanned(card.dcim, if top > 0 then top + 1 else DIR_MIN)
      ensures card.sound ==> ok
    {
      hide SessionScanned, IsSession, SessionOf;
      var names;
      top := 0;
      forall k | 0 <= k < present.Length {
        present[k] := false;
      }
      ok, names := card.ListRoot();
      if !ok {
        return;
      }
      for i := 0 to |names|
        invariant Marked(present[..], top, Seen(names[..i]))
      {
        assert names[..i + 1][..i] == names[..i];
        top := DcimEntry(names[i].0, names[i].1, present, top);
      }
      assert names[..|names|] == names;
      SeenAll(card.dcim, names, present[..], top);
    }

    /** The highest index among the names of one directory, and `high`. */
    method HighestClip(names: seq<(string, bool)>, d: string, high: nat) returns (top: nat)
      requires card.Valid() && IsSession(card.dcim, d) && Lists(names, card.dcim[d].files)
      ensures top >= high && forall f :: IsClip(card.dcim, d, f) ==> ClipOf(f) <= top
      ensures top == high || exists f :: IsClip(card.dcim, d, f) && ClipOf(f) == top
    {
      top := high;
      for i := 0 to |names|
        invariant top >= high && forall j :: 0 <= j < i && !names[j].1 ==> ClipOf(names[j].0) <= top
        invariant top == high || exists f :: IsClip(card.dcim, d, f) && ClipOf(f) == top
      {
        if !names[i].1 {
          var idx := ParseClipName(names[i].0);
          if idx > top {
            assert IsClip(card.dcim, d, names[i].0);
            top := idx;
          }
        }
      }
      forall f | IsClip(card.dcim, d, f) ensures ClipOf(f) <= top {
        var j :| 0 <= j < |names| && names[j] == (f, false);
      }
    }

    /** No memory of earlier sessions: names follow from the directories found. */
    method BootScan() returns (r: Code)
      requires card.Valid()
      modifies this
      ensures r != IoErr ==> Scanned(card.dcim, sessionDir, nextIndex) && !sessionMade
      ensures r != IoErr ==> (r == Full <==> sessionDir > DIR_MAX)
      ensures card.sound ==> r != IoErr
    {
      sessionMade := false;
      var present := new bool[DIR_MAX + 1 - DIR_MIN];
      var ok, top := MarkSessions(present);
      if !ok {
        return IoErr;
      }
      var high := 0;
      for nnn := DIR_MIN to DIR_MAX + 1
        invariant unchanged(card) && !sessionMade
        invariant forall k :: 0 <= k < present.Length ==> (present[k] <==> IsSession(card.dcim, SessionDirName(k + DIR_MIN)))
        invariant forall d, f :: IsClip(card.dcim, d, f) && SessionOf(d) < nnn ==> ClipOf(f) <= high
        invariant high == 0 || exists d, f :: IsClip(card.dcim, d, f) && ClipOf(f) == high
      {
        if present[nnn - DIR_MIN] {
          var digits := PutDec(nnn, 3);
          var d := digits + DIRTAG;
          assert IsSession(card.dcim, SessionDirName(nnn - DIR_MIN + DIR_MIN));
          var names;
          ok, names := card.ListFolder(d);
          if !ok {
            return IoErr;
          }
          high := HighestClip(names, d, high);
        }
        OneFolder(card.dcim, nnn);
      }
      sessionDir, nextIndex := if top > 0 then top + 1 else DIR_MIN, high + 1;
      assert IndexScanned(card.dcim, nextIndex);
      return if sessionDir > DIR_MAX then Full else Ok;
    }

    /** The path of the next clip; its session's directory is made with the first. */
    method NextClip() returns (r: Code, path: string)
      modifies this, card
      ensures r == Full <==> old(sessionDir) > DIR_MAX || old(nextIndex) > IDX_MAX
      ensures sessionDir == old(sessionDir) && nextIndex == old(nextIndex) + if r == Ok then 1 else 0
      ensures r == Ok ==> path == "/DCIM/" + SessionDirName(sessionDir) + "/" + ClipFileName(old(nextIndex)) && sessionMade
      ensures card.dcim == if r == Ok && !old(sessionMade) then WithFolder(old(card.dcim), SessionDirName(sessionDir)) else old(card.dcim)
      ensures r != Ok ==> sessionMade == old(sessionMade)
      ensures card.sound ==> r != IoErr
    {
      path := "";
      if sessionDir > DIR_MAX || nextIndex > IDX_MAX {
        return Full, path;
      }
      var nnn := PutDec(sessionDir, 3);
      if !sessionMade {
        var root := card.Works();
        if !root {
          return IoErr, path;
        }
        var made := card.MakeSession(nnn + DIRTAG);
        if !made {
          return IoErr, path;
        }
        sessionMade := true;
      }
      var digits := PutDec(nextIndex, 4);
      path := "/DCIM/" + (nnn + DIRTAG) + "/" + (PREFIX + digits + "." + EXT);
      nextIndex := nextIndex + 1;
      r := Ok;
    }
  }

  /** The session numbers among the names of a listing. */
  function Seen(names: seq<(string, bool)>): (r: set<int>)
    ensures forall v :: v in r ==> v >= DIR_MIN
  {
    if names == [] then {}
    else
      var last := names[|names| - 1];
      Seen(names[..|names| - 1]) + if last.1 && SessionOf(last.0) >= DIR_MIN then {SessionOf(last.0)} else {}
  }

  /** Just the numbers seen are marked, and `top` is the highest of them. */
  ghost predicate Marked(present: seq<bool>, top: nat, seen: set<int>) {
    && |present| == DIR_MAX + 1 - DIR_MIN
    && (forall k :: 0 <= k < |present| ==> (present[k] <==> k + DIR_MIN in seen))
    && (forall v :: v in seen ==> v <= top) && (top == 0 || top in seen)
  }

  lemma {:induction false} SeenMeans(names: seq<(string, bool)>, v: int)
    ensures v in Seen(names) <==> v >= DIR_MIN && exists k :: 0 <= k < |names| && names[k].1 && SessionOf(names[k].0) == v
    decreases |names|
  {
    if names != [] {
      var n := |names| - 1;
      SeenMeans(names[..n], v);
      if v in Seen(names) && v in Seen(names[..n]) {
        var k :| 0 <= k < n && names[..n][k].1 && SessionOf(names[..n][k].0) == v;
        assert names[k].1 && SessionOf(names[k].0) == v;
      }
      if k :| 0 <= k < n && names[k].1 && SessionOf(names[k].0) == v {
        assert names[..n][k] == names[k];
      }
    }
  }

  /** The numbers seen in a listing of the card are those of its session directories. */
  lemma SeenIsSession(c: Dcim, names: seq<(string, bool)>, v: nat)
    requires Lists(names, c)
    ensures v in Seen(names) <==> IsSession(c, SessionDirName(v)) && DIR_MIN <= v <= DIR_MAX
    ensures forall d :: IsSession(c, d) && SessionOf(d) == v ==> v in Seen(names)
  {
    SeenMeans(names, v);
    if v in Seen(names) {
      var k :| 0 <= k < |names| && names[k].1 && SessionOf(names[k].0) == v;
      SessionRoundTrip(names[k].0, v);
    }
    forall d | IsSession(c, d) && SessionOf(d) == v ensures v in Seen(names) {
      SessionRoundTrip(d, v);
      var k :| 0 <= k < |names| && names[k] == (d, true);
    }
    if DIR_MIN <= v <= DIR_MAX {
      SessionRoundTrip(SessionDirName(v), v);
    }
  }

  lemma SeenAll(c: Dcim, names: seq<(string, bool)>, present: seq<bool>, top: nat)
    requires Lists(names, c) && Marked(present, top, Seen(names))
    ensures forall k :: 0 <= k < |present| ==> (present[k] <==> IsSession(c, SessionDirName(k + DIR_MIN)))
    ensures SessionScanned(c, if top > 0 then top + 1 else DIR_MIN)
  {
    hide Seen, Lists, IsSession, SessionOf, SessionDirName;
    forall k | 0 <= k < |present| ensures present[k] <==> IsSession(c, SessionDirName(k + DIR_MIN)) {
      SeenIsSession(c, names, k + DIR_MIN);
    }
    forall d | IsSession(c, d) ensures SessionOf(d) <= top && top > 0 {
      IsSessionMeans(c, d);
      SeenIsSession(c, names, SessionOf(d));
    }
    if top > 0 {
      SeenIsSession(c, names, top);
      SessionRoundTrip(SessionDirName(top), top);
    }
  }

  lemma IsSessionMeans(c: Dcim, d: string)
    requires IsSession(c, d)
    ensures DIR_MIN <= SessionOf(d) <= DIR_MAX
  {
    SessionRoundTrip(d, SessionOf(d));
  }

  /** A session number has one directory, the one its name is printed from. */
  lemma OneFolder(c: Dcim, nnn: nat)
    ensures forall d :: IsSession(c, d) && SessionOf(d) == nnn ==> d == SessionDirName(nnn)
  {
    forall d | IsSession(c, d) && SessionOf(d) == nnn ensures d == SessionDirName(nnn) {
      SessionRoundTrip(d, nnn);
    }
  }

  // ---- histories of a card ----

  /** A card, the number of clips ever made, and what the camera plans. */
  datatype World = World(card: Dcim, clock: nat, live: bool, dir: nat, index: nat)

  /** Of the clips on the card, the one made first has the lower index and is in no later session. */
  ghost predicate Ordered(w: World) {
    && Dated(w)
    && forall d, f, e, g :: IsClip(w.card, d, f) && IsClip(w.card, e, g) && (d != e || f != g) ==> Apart(w.card, d, f, e, g)
  }

  predicate Apart(c: Dcim, d: string, f: string, e: string, g: string)
    requires IsClip(c, d, f) && IsClip(c, e, g)
  {
    if Born(c, d, f) < Born(c, e, g) then ClipOf(f) < ClipOf(g) && SessionOf(d) <= SessionOf(e)
    else Born(c, e, g) < Born(c, d, f) && ClipOf(g) < ClipOf(f) && SessionOf(e) <= SessionOf(d)
  }

  /** Every clip was made before now. */
  ghost predicate Dated(w: World) {
    forall d, f :: IsClip(w.card, d, f) ==> Born(w.card, d, f) < w.clock
  }

  /** The plan is behind nothing on the card. */
  ghost predicate Ahead(w: World) {
    && (forall d :: IsSession(w.card, d) ==> SessionOf(d) <= w.dir)
    && (forall d, f :: IsClip(w.card, d, f) ==> ClipOf(f) < w.index)
  }

  ghost predicate Good(w: World) {
    Ordered(w) && (w.live ==> Ahead(w))
  }

  /** Every session and clip of `v` is one of `c`, unchanged: deletions, and files that are not clips coming and going. */
  ghost predicate Shrinks(c: Dcim, v: Dcim) {
    && (forall d :: IsSession(v, d) ==> IsSession(c, d))
    && forall d, f :: IsClip(v, d, f) ==> IsClip(c, d, f) && Born(v, d, f) == Born(c, d, f)
  }

  ghost predicate Boots(w: World, v: World) {
    v.card == w.card && v.clock == w.clock && (v.live ==> Scanned(w.card, v.dir, v.index) && v.dir <= DIR_MAX)
  }

  /** The recorder is given a path, the directory made unless it takes it for made, and makes the file unless that fails. */
  ghost predicate Records(w: World, v: World) {
    && w.live && w.dir <= DIR_MAX && w.index <= IDX_MAX && v.live && v.dir == w.dir && v.index == w.index + 1
    && v.clock == w.clock + 1
    && (Makes(w, w.card, v.card) || Makes(w, WithFolder(w.card, SessionDirName(w.dir)), v.card))
  }

  /** In a directory made earlier in the session and deleted since, no file can be made. */
  ghost predicate Makes(w: World, c: Dcim, v: Dcim) {
    v == c || v == WithFile(c, SessionDirName(w.dir), ClipFileName(w.index), w.clock)
  }

  ghost predicate Removes(w: World, v: World) {
    Shrinks(w.card, v.card) && v.clock == w.clock && v.live == w.live && v.dir == w.dir && v.index == w.index
  }

  /** Another card is put in, whose clips are in order. The camera goes on with its plan. */
  ghost predicate Swaps(w: World, v: World) {
    Ordered(v) && w.clock <= v.clock && v.live == w.live && v.dir == w.dir && v.index == w.index
  }

  ghost predicate Step(w: World, v: World) {
    Boots(w, v) || Records(w, v) || Removes(w, v)
  }

  /** A step that cannot upset the order: a swap only if a plan that is kept is ahead of the new card. */
  ghost predicate Fits(w: World, v: World) {
    Step(w, v) || (Swaps(w, v) && Good(v))
  }

  /** The name about to be given is the name of no clip on the card, and its index is above them all. */
  lemma NewNameIsFresh(w: World, d: string, f: string)
    requires Good(w) && w.live && w.index <= IDX_MAX && IsClip(w.card, d, f)
    ensures ClipOf(f) < w.index && f != ClipFileName(w.index)
  {
    if f == ClipFileName(w.index) {
      ClipRoundTrip(f, w.index);
    }
  }

  /** An index that was used is given again after the next boot exactly when no clip with it or a higher one is left. */
  lemma WhenAnIndexIsReused(c: Dcim, dir: nat, index: nat, used: nat)
    requires Scanned(c, dir, index) && used >= 1
    ensures index <= used <==> forall d, f :: IsClip(c, d, f) ==> ClipOf(f) < used
  {
    if index > used {
      var d, f :| IsClip(c, d, f) && ClipOf(f) == index - 1;
    }
  }

  lemma GoodIsOrdered(w: World)
    requires Good(w)
    ensures Ordered(w)
  {
  }

  lemma ShrinkKeeps(w: World, v: World)
    requires Good(w) && Removes(w, v)
    ensures Good(v)
  {
    hide IsSession, IsClip;
    forall d, f, e, g | IsClip(v.card, d, f) && IsClip(v.card, e, g) && (d != e || f != g) ensures Apart(v.card, d, f, e, g) {
      assert Apart(w.card, d, f, e, g);
    }
  }

  /** What the card holds after a clip was made: what it held, and that clip. */
  lemma RecordedClips(w: World, v: World, d: string, f: string)
    requires Good(w) && Records(w, v) && IsClip(v.card, d, f)
    ensures (IsClip(w.card, d, f) && Born(v.card, d, f) == Born(w.card, d, f))
      || (d == SessionDirName(w.dir) && f == ClipFileName(w.index) && Born(v.card, d, f) == w.clock)
  {
  }

  lemma RecordedSessions(w: World, v: World, d: string)
    requires Records(w, v) && IsSession(v.card, d)
    ensures IsSession(w.card, d) || d == SessionDirName(w.dir)
  {
  }

  lemma OldClip(w: World, d: string, f: string)
    requires Good(w) && w.live && IsClip(w.card, d, f)
    ensures ClipOf(f) < w.index && SessionOf(d) <= w.dir && Born(w.card, d, f) < w.clock
  {
  }

  lemma RecordKeeps(w: World, v: World)
    requires Good(w) && Records(w, v) && DIR_MIN <= w.dir
    ensures Good(v)
  {
    hide Born, IsSession, IsClip, WithFile, WithFolder, SessionOf, ClipOf, SessionDirName, ClipFileName;
    var dir, name := SessionDirName(w.dir), ClipFileName(w.index);
    SessionRoundTrip(dir, w.dir);
    ClipRoundTrip(name, w.index);
    forall d, f | IsClip(v.card, d, f) ensures Born(v.card, d, f) < v.clock && ClipOf(f) < v.index {
      RecordedClips(w, v, d, f);
    }
    forall d | IsSession(v.card, d) ensures SessionOf(d) <= v.dir {
      RecordedSessions(w, v, d);
    }
    forall d, f, e, g | IsClip(v.card, d, f) && IsClip(v.card, e, g) && (d != e || f != g) ensures Apart(v.card, d, f, e, g) {
      StillApart(w, v, d, f, e, g);
    }
  }

  lemma StillApart(w: World, v: World, d: string, f: string, e: string, g: string)
    requires Good(w) && Records(w, v) && DIR_MIN <= w.dir
    requires IsClip(v.card, d, f) && IsClip(v.card, e, g) && (d != e || f != g)
    ensures Apart(v.card, d, f, e, g)
  {
    hide Born, IsSession, IsClip, Records, SessionOf, ClipOf, SessionDirName, ClipFileName, Ahead;
    RecordedClips(w, v, d, f);
    RecordedClips(w, v, e, g);
    NewClip(w, v);
    if IsClip(w.card, d, f) {
      OldClip(w, d, f);
    }
    if IsClip(w.card, e, g) {
      OldClip(w, e, g);
    }
    assert IsClip(w.card, d, f) && IsClip(w.card, e, g) ==> Apart(w.card, d, f, e, g);
  }

  lemma NewClip(w: World, v: World)
    requires Good(w) && Records(w, v) && DIR_MIN <= w.dir
    ensures w.live && SessionOf(SessionDirName(w.dir)) == w.dir && ClipOf(ClipFileName(w.index)) == w.index
    ensures !IsClip(w.card, SessionDirName(w.dir), ClipFileName(w.index))
  {
    SessionRoundTrip(SessionDirName(w.dir), w.dir);
    ClipRoundTrip(ClipFileName(w.index), w.index);
  }

  /** A power-up heals whatever a swap has done to the plan. */
  lemma BootKeeps(w: World, v: World)
    requires Ordered(w) && Boots(w, v)
    ensures Good(v) && (v.live ==> DIR_MIN <= v.dir)
  {
  }

  /** The planned clip's file is made on a card on which there may be anything. */
  ghost predicate MakesFile(w: World, v: World) {
    var d := SessionDirName(w.dir);
    && w.live && DIR_MIN <= w.dir <= DIR_MAX && w.index <= IDX_MAX && v.clock == w.clock + 1
    && IsFolder(WithFolder(w.card, d), d)
    && v.card == WithFile(WithFolder(w.card, d), d, ClipFileName(w.index), w.clock)
  }

  /** No clip is lost exactly when the planned path is not a clip's already. */
  lemma WhenAClipIsLost(w: World, v: World)
    requires Dated(w) && MakesFile(w, v)
    ensures Shrinks(v.card, w.card) <==> !IsClip(w.card, SessionDirName(w.dir), ClipFileName(w.index))
  {
    hide SessionDirName, ClipFileName;
    SessionRoundTrip(SessionDirName(w.dir), w.dir);
    ClipRoundTrip(ClipFileName(w.index), w.index);
  }

  /** The plan is ahead of every clip but the one in its place. */
  ghost predicate AheadOfOthers(w: World) {
    forall d, f :: IsClip(w.card, d, f) && (d != SessionDirName(w.dir) || f != ClipFileName(w.index)) ==>
      ClipOf(f) < w.index && SessionOf(d) <= w.dir
  }

  /** The clips stay in order exactly when the plan is ahead of the other ones. */
  lemma WhenOrderIsKept(w: World, v: World)
    requires Ordered(w) && MakesFile(w, v)
    ensures Ordered(v) <==> AheadOfOthers(w)
  {
    hide SessionDirName, ClipFileName, SessionOf, ClipOf;
    var e, g := SessionDirName(w.dir), ClipFileName(w.index);
    SessionRoundTrip(e, w.dir);
    ClipRoundTrip(g, w.index);
    assert IsClip(v.card, e, g) && Born(v.card, e, g) == w.clock;
    assert forall d, f :: d != e || f != g ==> (IsClip(v.card, d, f) <==> IsClip(w.card, d, f));
    assert forall d, f :: (d != e || f != g) && IsClip(w.card, d, f) ==> Born(v.card, d, f) == Born(w.card, d, f);
    if Ordered(v) {
      forall d, f | IsClip(w.card, d, f) && (d != e || f != g) ensures ClipOf(f) < w.index && SessionOf(d) <= w.dir {
        assert Apart(v.card, d, f, e, g);
      }
    }
    if AheadOfOthers(w) {
      forall d, f, a, b | IsClip(v.card, d, f) && IsClip(v.card, a, b) && (d != a || f != b) ensures Apart(v.card, d, f, a, b) {
        assert (d != e || f != g) && (a != e || b != g) ==> Apart(w.card, d, f, a, b);
      }
    }
  }

  /** A card has one plan. */
  lemma PlanIsUnique(c: Dcim, dir: nat, index: nat, dir2: nat, index2: nat)
    requires Scanned(c, dir, index) && Scanned(c, dir2, index2)
    ensures dir == dir2 && index == index2
  {
  }

  /**
   * Over any history of boots, clips and deletions, and of swaps that fit, the clips on the card stay apart and in the
   * order they were made.
   */
  lemma {:induction false} HistoryKeeps(ws: seq<World>)
    requires ws != [] && Good(ws[0]) && (ws[0].live ==> DIR_MIN <= ws[0].dir)
    requires forall i :: 0 <= i < |ws| - 1 ==> Fits(ws[i], ws[i + 1])
    ensures var w := ws[|ws| - 1]; Good(w) && (w.live ==> DIR_MIN <= w.dir)
    decreases |ws|
  {
    hide Good;
    if |ws| > 1 {
      var n := |ws| - 2;
      HistoryKeeps(ws[..n + 1]);
      var w, v := ws[n], ws[n + 1];
      assert Fits(w, v) && ws[..n + 1][|ws[..n + 1]| - 1] == w;
      if Records(w, v) {
        RecordKeeps(w, v);
      } else if Removes(w, v) {
        ShrinkKeeps(w, v);
      } else if Boots(w, v) {
        assert Ordered(w) by {
          GoodIsOrdered(w);
        }
        BootKeeps(w, v);
      }
    }
  }
}
