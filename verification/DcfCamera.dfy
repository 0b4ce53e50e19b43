/** A camera over any number of power-ups, clips, visits of the card to a host, and changes of the card. */
module DcfCamera {
  import opened DcfNames
  import opened DcfCard

  /** A card can start out with clips that other sessions left there in order. */
  ghost predicate History(ws: seq<World>) {
    && ws != [] && Good(ws[0]) && !ws[0].live
    && forall i :: 0 <= i < |ws| - 1 ==> Step(ws[i], ws[i + 1]) || Swaps(ws[i], ws[i + 1])
  }

  /** No card was put in under a plan that is not ahead of it. */
  ghost predicate Fitting(ws: seq<World>) {
    forall i :: 0 <= i < |ws| - 1 ==> Fits(ws[i], ws[i + 1])
  }

  lemma HistoryGrows(ws: seq<World>, w: World)
    requires History(ws) && (Step(ws[|ws| - 1], w) || Swaps(ws[|ws| - 1], w))
    ensures History(ws + [w])
  {
    hide Step, Good, Swaps;
    var vs := ws + [w];
    forall i | 0 <= i < |vs| - 1 ensures Step(vs[i], vs[i + 1]) || Swaps(vs[i], vs[i + 1]) {
      if i < |ws| - 1 {
        assert Step(ws[i], ws[i + 1]) || Swaps(ws[i], ws[i + 1]);
      }
    }
  }

  /** The names the camera gives hold no NUL, so it can read them back. */
  lemma NamesArePlain(n: nat)
    ensures CString(SessionDirName(n)) && CString(ClipFileName(n))
  {
    assert AllDigits(Dec(n, 3)) && AllDigits(Dec(n, 4));
  }

  function WithoutFile(c: Dcim, d: string, f: string): Dcim {
    if IsFolder(c, d) then c[d := Folder(c[d].files - {f})] else c
  }

  lemma DeletingShrinks(c: Dcim, d: string, f: string)
    ensures Shrinks(c, WithoutFile(c, d, f)) && Shrinks(c, c - {d})
  {
  }

  class Camera {
    const card: Card
    const dcf: Dcf
    /** The names are planned. Only a power-up plans them anew. */
    var ready: bool
    /** How many clips were ever made, by which a clip remembers when. */
    var clock: nat
    ghost var history: seq<World>

    constructor (c: Card, d: Dcf, made: nat)
      requires c.Valid() && d.card == c && Ordered(World(c.dcim, made, false, d.sessionDir, d.nextIndex))
      ensures Valid() && card == c && dcf == d && !ready && clock == made && |history| == 1
    {
      card, dcf, ready, clock := c, d, false, made;
      history := [World(c.dcim, made, false, d.sessionDir, d.nextIndex)];
    }

    ghost function W(): World
      reads this, card, dcf
    {
      World(card.dcim, clock, ready, dcf.sessionDir, dcf.nextIndex)
    }

    /** What the camera and the host did to the card so far is a history, and it led to what is there now. */
    ghost predicate Valid()
      reads this, card, dcf
    {
      && dcf.card == card && card.Valid() && History(history) && history[|history| - 1] == W()
      && (ready ==> DIR_MIN <= dcf.sessionDir <= DIR_MAX) && Dated(W())
    }

    lemma ClipsInOrder()
      requires Valid() && Fitting(history)
      ensures Good(W())
    {
      HistoryKeeps(history);
    }

    ghost method Note()
      requires dcf.card == card && card.Valid() && (ready ==> DIR_MIN <= dcf.sessionDir <= DIR_MAX) && Dated(W())
      requires History(history) && (Step(history[|history| - 1], W()) || Swaps(history[|history| - 1], W()))
      modifies this`history
      ensures Valid() && history == old(history) + [W()]
    {
      HistoryGrows(history, W());
      history := history + [W()];
    }

    method PowerUp()
      requires Valid()
      modifies this
      ensures Valid() && !ready && history == old(history) + [W()]
    {
      ready := false;
      Note();
    }

    /** The card as a host leaves it: clips and sessions deleted, other files brought and taken. */
    method HostEdits(c: Dcim)
      requires Valid() && Shrinks(card.dcim, c) && AllNames(c)
      modifies this`history, card
      ensures Valid() && card.dcim == c && history == old(history) + [W()]
      ensures old(Stuck()) ==> Stuck()
    {
      hide History, SessionDirName;
      if ready {
        SessionRoundTrip(SessionDirName(dcf.sessionDir), dcf.sessionDir);
        assert IsFolder(c, SessionDirName(dcf.sessionDir)) ==> IsSession(c, SessionDirName(dcf.sessionDir));
      }
      card.dcim := c;
      Note();
    }

    /** Another card in the slot, on which `made` clips at most were made before. The plan stays. */
    method Swap(c: Dcim, made: nat)
      requires Valid() && AllNames(c) && Ordered(World(c, made, ready, dcf.sessionDir, dcf.nextIndex))
      modifies this`history, this`clock, card
      ensures Valid() && card.dcim == c && clock >= old(clock) && history == old(history) + [W()]
    {
      hide History;
      card.dcim := c;
      clock := if made > clock then made else clock;
      Note();
    }

    /** The plan, made with the first clip after a power-up. */
    method Plan() returns (ok: bool)
      requires Valid()
      modifies this`ready, this`history, dcf
      ensures Valid() && ok == ready && history == old(history) + if old(ready) then [] else [W()]
      ensures old(ready) ==> ok && unchanged(dcf)
      ensures ok && !old(ready) ==> Scanned(card.dcim, dcf.sessionDir, dcf.nextIndex) && !dcf.sessionMade
      ensures !ok && card.sound ==> Scanned(card.dcim, dcf.sessionDir, dcf.nextIndex) && dcf.sessionDir > DIR_MAX
    {
      hide History;
      if !ready {
        var r := dcf.BootScan();
        ready := r == Ok;
        Note();
      }
      ok := ready;
    }

    /** The clip made last. */
    ghost predicate Gave(path: string, born: nat)
      reads this`clock, card, dcf
    {
      && dcf.nextIndex > 0 && clock == born + 1
      && var d, f := SessionDirName(dcf.sessionDir), ClipFileName(dcf.nextIndex - 1);
        path == "/DCIM/" + d + "/" + f && IsClip(card.dcim, d, f) && Born(card.dcim, d, f) == born
    }

    /** The clip made last has an index above those of all clips in `c`. */
    ghost predicate Tops(c: Dcim)
      reads dcf
    {
      forall e, g :: IsClip(c, e, g) ==> ClipOf(g) < dcf.nextIndex - 1
    }

    /** The session's directory was made and is no longer there. */
    predicate Stuck()
      reads this, card, dcf
    {
      ready && dcf.sessionMade && !IsFolder(card.dcim, SessionDirName(dcf.sessionDir))
    }

    predicate CanStart()
      reads this, card, dcf
    {
      CanMake(card.dcim, dcf.sessionMade, dcf.sessionDir, dcf.nextIndex)
    }

    /** The planned path is a clip already, which only another card can bring about. */
    predicate Taken()
      reads this, card, dcf
    {
      ready && IsClip(card.dcim, SessionDirName(dcf.sessionDir), ClipFileName(dcf.nextIndex))
    }

    /**
     * On a sound card a clip is made exactly when its numbers are not used up and its directory can hold it. Under a
     * fresh plan it is above all clips on the card, and so it is as long as every card put in fits the plan. A clip
     * is lost exactly when it has the path planned.
     */
    method ClipStart() returns (ok: bool, path: string)
      requires Valid()
      modifies this, card, dcf
      ensures Valid() && old(history) <= history && (ok ==> ready && dcf.sessionMade && Gave(path, old(clock)))
      ensures old(ready) && ok ==> dcf.sessionDir == old(dcf.sessionDir) && dcf.nextIndex == old(dcf.nextIndex) + 1
      ensures !old(ready) && ok ==> Scanned(old(card.dcim), dcf.sessionDir, dcf.nextIndex - 1)
      ensures old(ready) ==> (ok ==> old(CanStart())) && (card.sound && old(CanStart()) ==> ok)
      ensures !old(ready) ==> forall dir, index: nat :: Scanned(old(card.dcim), dir, index) ==>
        (ok ==> CanMake(old(card.dcim), false, dir, index)) && (card.sound && CanMake(old(card.dcim), false, dir, index) ==> ok)
      ensures ok && (!old(ready) || old(Fitting(history))) ==> Tops(old(card.dcim))
      ensures Shrinks(card.dcim, old(card.dcim)) <==> !(ok && old(Taken()))
      ensures old(Stuck()) ==> !ok && Stuck() && card.dcim == old(card.dcim)
    {
      hide History, Step, Scanned, Gave, Tops, Shrinks, IsFolder, SessionDirName, ClipFileName, CanHold, IsClip, CNames;
      ghost var c, was := card.dcim, ready;
      if was && Fitting(history) {
        ClipsInOrder();
        GoodIsAhead(W());
      }
      path := "";
      ok := Plan();
      if !was && (ok || card.sound) {
        forall dir: nat, index: nat | Scanned(c, dir, index) ensures dir == dcf.sessionDir && index == dcf.nextIndex {
          PlanIsUnique(c, dir, index, dcf.sessionDir, dcf.nextIndex);
        }
      }
      if ok {
        if !was {
          PlanIsAhead();
        }
        ok, path := MakeNext();
      } else {
        ShrinksNot(c);
      }
    }

    lemma GoodIsAhead(w: World)
      requires Good(w) && w.live
      ensures Ahead(w)
    {
    }

    lemma ShrinksNot(c: Dcim)
      ensures Shrinks(c, c)
    {
    }

    lemma PlanIsAhead()
      requires ready && Scanned(card.dcim, dcf.sessionDir, dcf.nextIndex)
      ensures Ahead(W()) && (dcf.nextIndex <= IDX_MAX ==> !Taken())
    {
      ClipRoundTrip(ClipFileName(dcf.nextIndex), dcf.nextIndex);
    }

    lemma Makes(w: World)
      requires w.live && DIR_MIN <= w.dir <= DIR_MAX && w.index <= IDX_MAX && Dated(w)
      requires dcf.sessionDir == w.dir && dcf.nextIndex == w.index + 1 && clock == w.clock + 1
      requires IsFolder(WithFolder(w.card, SessionDirName(w.dir)), SessionDirName(w.dir))
      requires card.dcim == WithFile(WithFolder(w.card, SessionDirName(w.dir)), SessionDirName(w.dir), ClipFileName(w.index), w.clock)
      ensures Gave("/DCIM/" + SessionDirName(w.dir) + "/" + ClipFileName(w.index), w.clock) && Dated(W())
      ensures Shrinks(card.dcim, w.card) <==> !IsClip(w.card, SessionDirName(w.dir), ClipFileName(w.index))
    {
      hide SessionDirName, ClipFileName;
      SessionRoundTrip(SessionDirName(w.dir), w.dir);
      ClipRoundTrip(ClipFileName(w.index), w.index);
      WhenAClipIsLost(w, W());
      forall d, f | IsClip(card.dcim, d, f) ensures Born(card.dcim, d, f) < clock {
        assert IsClip(w.card, d, f) || (d == SessionDirName(w.dir) && f == ClipFileName(w.index));
      }
    }

    lemma FolderOnly(w: World)
      requires Dated(w) && clock >= w.clock
      requires card.dcim == w.card || card.dcim == WithFolder(w.card, SessionDirName(w.dir))
      ensures Shrinks(card.dcim, w.card) && Dated(W())
    {
    }

    method MakeNext() returns (ok: bool, path: string)
      requires Valid() && ready
      modifies this`clock, this`history, card, dcf
      ensures Valid() && history == old(history) + [W()] && (ok ==> dcf.sessionMade && Gave(path, old(clock)))
      ensures ok ==> dcf.sessionDir == old(dcf.sessionDir) && dcf.nextIndex == old(dcf.nextIndex) + 1
      ensures (ok ==> old(CanStart())) && (card.sound && old(CanStart()) ==> ok)
      ensures ok && old(Ahead(W())) ==> Tops(old(card.dcim))
      ensures Shrinks(card.dcim, old(card.dcim)) <==> !(ok && old(Taken()))
      ensures old(Stuck()) ==> !ok && Stuck() && card.dcim == old(card.dcim)
    {
      hide History, SessionDirName, ClipFileName, Good, Shrinks, Gave, Dated, IsClip;
      ghost var w := W();
      var r;
      r, path := dcf.NextClip();
      ok := r == Ok;
      if !ok {
        FolderOnly(w);
        Note();
        return;
      }
      NamesArePlain(w.dir);
      NamesArePlain(w.index);
      ok := card.MakeFile(SessionDirName(dcf.sessionDir), ClipFileName(dcf.nextIndex - 1), clock);
      clock := clock + 1;
      if ok {
        Makes(w);
      } else {
        FolderOnly(w);
      }
      Note();
    }
  }

  lemma FirstPlan()
    ensures Scanned(map[], DIR_MIN, 1) && CanMake(map[], false, DIR_MIN, 1)
  {
  }

  /** The first clip of a fresh card is made. */
  method FirstClip() returns (cam: Camera)
    ensures fresh(cam) && fresh(cam.card) && fresh(cam.dcf) && cam.Valid() && cam.card.sound && cam.ready && cam.clock == 1
    ensures cam.dcf.sessionMade && cam.dcf.sessionDir == DIR_MIN && cam.dcf.nextIndex == 2
  {
    hide History, SessionDirName, ClipFileName, Scanned;
    FirstPlan();
    var card := new Card(map[], true);
    var dcf := new Dcf(card);
    cam := new Camera(card, dcf, 0);
    var ok, path := cam.ClipStart();
    PlanIsUnique(map[], dcf.sessionDir, dcf.nextIndex - 1, DIR_MIN, 1);
  }

  /** A host empties the card during the session, and the camera makes no clip any more although the card is sound. */
  method BecomesStuck() returns (cam: Camera)
    ensures fresh(cam) && cam.Valid() && cam.card.sound && cam.Stuck()
  {
    hide History, SessionDirName;
    cam := FirstClip();
    cam.HostEdits(map[]);
  }

  /** Another card is put in during the session, and its clip of the planned path is overwritten. */
  method SwapLosesAClip() returns (cam: Camera, path: string, ghost before: Dcim)
    ensures fresh(cam) && cam.Valid() && path == "/DCIM/" + SessionDirName(DIR_MIN) + "/" + ClipFileName(2)
    ensures IsClip(before, SessionDirName(DIR_MIN), ClipFileName(2)) && !Shrinks(cam.card.dcim, before)
  {
    hide History, SessionDirName, ClipFileName, SessionOf, ClipOf, Shrinks;
    cam := FirstClip();
    var d, f := SessionDirName(DIR_MIN), ClipFileName(2);
    var other: Dcim := map[d := Folder(map[f := File(0)])];
    before := other;
    SessionRoundTrip(d, DIR_MIN);
    ClipRoundTrip(f, 2);
    NamesArePlain(DIR_MIN);
    NamesArePlain(2);
    cam.Swap(other, 1);
    var ok;
    ok, path := cam.ClipStart();
  }

  /** The first session's first clip is made, deleted by a host, and after a power-up its name is planned again. */
  function Reuse(): seq<World> {
    var d, f := SessionDirName(DIR_MIN), ClipFileName(1);
    var made, kept := map[d := Folder(map[f := File(0)])], map[d := Folder(map[])];
    [World(map[], 0, false, 0, 0), World(map[], 0, true, DIR_MIN, 1), World(made, 1, true, DIR_MIN, 2),
     World(kept, 1, true, DIR_MIN, 2), World(kept, 1, true, DIR_MIN + 1, 1)]
  }

  lemma ReuseSteps()
    ensures var ws := Reuse(); Step(ws[0], ws[1]) && Step(ws[1], ws[2]) && Step(ws[2], ws[3])
  {
    hide SessionDirName, ClipFileName, SessionOf, ClipOf;
    var ws, d, f := Reuse(), SessionDirName(DIR_MIN), ClipFileName(1);
    assert Scanned(ws[1].card, DIR_MIN, 1);
    assert WithFile(WithFolder(ws[1].card, d), d, f, 0) == ws[2].card;
    assert WithoutFile(ws[2].card, d, f) == ws[3].card by {
      assert map[f := File(0)] - {f} == map[];
    }
    DeletingShrinks(ws[2].card, d, f);
    assert Boots(ws[0], ws[1]) && Records(ws[1], ws[2]) && Removes(ws[2], ws[3]);
  }

  /** An index is not given for good: with its clip deleted and none above it, the next session starts from it. */
  lemma DeletedIndexComesBack()
    ensures History(Reuse())
    ensures Reuse()[1].live && Reuse()[4].live && Reuse()[1].index == Reuse()[4].index == 1
    ensures IsClip(Reuse()[2].card, SessionDirName(DIR_MIN), ClipFileName(1))
  {
    hide Records, Removes, WithFile, WithFolder;
    var ws, d := Reuse(), SessionDirName(DIR_MIN);
    SessionRoundTrip(d, DIR_MIN);
    ClipRoundTrip(ClipFileName(1), 1);
    ReuseSteps();
    assert IsSession(ws[4].card, d);
    assert forall e :: IsSession(ws[4].card, e) ==> e == d;
    assert Scanned(ws[4].card, DIR_MIN + 1, 1);
  }
}
