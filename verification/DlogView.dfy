/** The state of the log as a value, and what each step of a flush does to it. */
module DlogView {
  import opened Bytes
  import opened DlogText

  datatype View = View(
    ext: seq<seq<byte>>,   // the sectors of the file
    cur: seq<byte>,        // the sector being filled
    sec: nat, fill: nat,
    unc: nat,              // bytes of `text` already in `cur` but not on the card
    dirty: bool,
    owed: seq<byte>,       // a line ending added at open, in `cur` but not on the card
    text: seq<byte>,       // what the ring holds
    story: seq<byte>)      // the text found at open, its line ending, every line accepted since
  {
    /** How much of the current sector is on the card. */
    function Kept(): int {
      fill - unc - |owed|
    }

    predicate Placed() {
      Sectors(ext) && sec < |ext| && fill <= SECTOR && 0 <= Kept()
    }

    /** The text on the card. */
    function Committed(): seq<byte>
      requires Placed()
    {
      Flatten(ext[..sec]) + ext[sec][..Kept()]
    }

    /** The current sector is what is on the card, what is owed and what was taken, padded; behind it is padding. */
    predicate Filling() {
      && Placed() && (sec == |ext| - 1 ==> fill == 0) && unc <= |text| && dirty == (Kept() < fill)
      && cur == ext[sec][..Kept()] + owed + text[..unc] + Pads(SECTOR - fill)
      && Padded()
    }

    /** Behind the committed text there is only padding. */
    predicate Padded() {
      && Placed() && ext[sec] == ext[sec][..Kept()] + Pads(SECTOR - Kept())
      && forall i :: sec < i < |ext| ==> ext[i] == Pads(SECTOR)
    }

    /** Stopped for good, with no text in the last sector. */
    predicate Stopped() {
      Placed() && sec == |ext| - 1 && fill == 0 && unc == 0 && owed == [] && !dirty && (Told() || Padded())
    }

    /** The last sector says that the log is full. */
    predicate Told() {
      sec == |ext| - 1 && ext[sec] == FullSector()
    }

    /** Nothing is lost and nothing is told twice: the card, what is owed to it, and the ring make up the story. */
    predicate Conserved()
      requires Placed()
    {
      story == Committed() + owed + text
    }

    /** The text is dense enough that no sector of it can pass for padding. */
    ghost predicate Knit()
      requires Placed()
    {
      WellKnit(story) && Dense(text) && (Kept() > 0 ==> ext[sec][Kept() - 1] != PAD)
    }

    /** How many bytes the ring can move into the current sector. */
    function Takes(): nat
      requires unc <= |text| && fill <= SECTOR
    {
      var avail, room := |text| - unc, SECTOR - fill;
      if avail < room then avail else room
    }

    /** The current sector with `n` more bytes of the text in it. */
    function Copied(n: nat): (c: seq<byte>)
      requires unc + n <= |text| && fill + n <= SECTOR && |cur| == SECTOR
      ensures |c| == SECTOR
    {
      cur[..fill] + text[unc..unc + n] + cur[fill + n..]
    }

    function Take(): View
      requires unc <= |text| && fill <= SECTOR && |cur| == SECTOR
    {
      var n := Takes();
      this.(cur := Copied(n), fill := fill + n, unc := unc + n, dirty := dirty || n > 0)
    }

    /** Lines are accepted, one after another. */
    function Said(s: seq<byte>): View {
      this.(text := text + s, story := story + s)
    }

    /** The current sector reaches the card. */
    function Put(): View
      requires sec < |ext| && unc <= |text|
    {
      this.(ext := ext[sec := cur], text := text[unc..], unc := 0, owed := [], dirty := false)
    }

    /** A full sector reaches the card and the next one begins. */
    function PutFull(): View
      requires sec < |ext| && unc <= |text|
    {
      Put().(sec := sec + 1, fill := 0, cur := Pads(SECTOR))
    }
  }

  /** Bytes that can be added to any text without making it look like padding. */
  ghost predicate Chatter(s: seq<byte>) {
    forall t: seq<byte> {:trigger t + s} :: (WellKnit(t) ==> WellKnit(t + s)) && (Dense(t) ==> Dense(t + s))
  }

  lemma LineIsChatter(s: seq<byte>)
    requires Line(s)
    ensures Chatter(s)
  {
    hide WellKnit, Dense;
    forall t: seq<byte> ensures (WellKnit(t) ==> WellKnit(t + s)) && (Dense(t) ==> Dense(t + s)) {
      if Dense(t) {
        DenseAppend(t, s);
      }
      if WellKnit(t) {
        DenseLine(s);
        KnitDense(t, s);
      }
    }
  }

  lemma DenseLine(s: seq<byte>)
    requires Line(s)
    ensures Dense(s)
  {
    assert [] + s == s;
    DenseAppend([], s);
  }

  lemma ChatterGoesOn(s: seq<byte>, t: seq<byte>)
    requires Chatter(s) && Chatter(t)
    ensures Chatter(s + t)
  {
    hide WellKnit, Dense;
    forall u: seq<byte> ensures (WellKnit(u) ==> WellKnit(u + (s + t))) && (Dense(u) ==> Dense(u + (s + t))) {
      Assoc(u, s, t);
      assert u + s + t == u + (s + t);
    }
  }

  lemma SilenceIsChatter()
    ensures Chatter([])
  {
    hide WellKnit, Dense;
    assert forall t: seq<byte> :: t + [] == t;
  }

  /** Lines accepted at any time join the story and change nothing else. */
  lemma SaidKeeps(v: View, s: seq<byte>)
    requires v.Placed() && v.Conserved() && v.unc <= |v.text|
    ensures var w := v.Said(s);
      w.Conserved() && w.Committed() == v.Committed() && (v.Filling() ==> w.Filling()) && (v.Knit() && Chatter(s) ==> w.Knit())
  {
    hide Flatten, WellKnit, Dense;
    var w := v.Said(s);
    Assoc(v.Committed() + v.owed, v.text, s);
    assert w.text[..w.unc] == v.text[..v.unc];
  }

  lemma TakeKeeps(v: View)
    requires v.Filling() && v.Conserved() && v.sec < |v.ext| - 1
    ensures |v.cur| == SECTOR && v.Take().Filling() && v.Take().Conserved() && v.Take().Committed() == v.Committed()
    ensures v.Knit() ==> v.Take().Knit()
    ensures v.Take().fill < SECTOR ==> v.Take().unc == |v.text|
  {
    hide Flatten, WellKnit, Dense, IsPadding, View.Padded;
    TakeFills(v);
  }

  lemma TakeFills(v: View)
    requires v.Filling() && v.sec < |v.ext| - 1
    ensures |v.cur| == SECTOR && v.Take().Filling()
  {
    hide Flatten, Pads, View.Padded, View.Put, View.Conserved, View.Copied, View.Takes, Trim, IsPadding, WellKnit, Dense;
    CurLength(v);
    TakenCur(v);
    PaddedStill(v, v.Take());
  }

  /** What is in the current sector after text was taken. */
  lemma TakenCur(v: View)
    requires v.Filling() && |v.cur| == SECTOR
    ensures var n := v.Takes();
      && v.unc + n <= |v.text| && v.fill + n <= SECTOR
      && v.Copied(n) == v.ext[v.sec][..v.Kept()] + v.owed + v.text[..v.unc + n] + Pads(SECTOR - (v.fill + n))
  {
    hide Flatten, Pads, View.Padded, View.Put, View.Conserved, Trim, IsPadding, Sectors, WellKnit, Dense;
    CurLength(v);
    var front := v.ext[v.sec][..v.Kept()] + v.owed;
    assert |front| + v.unc == v.fill && v.cur == front + v.text[..v.unc] + Pads(SECTOR - v.fill);
    TakenText(front, v.text, v.unc, v.Takes(), SECTOR - v.fill);
  }

  lemma CurLength(v: View)
    requires v.Filling()
    ensures |v.ext[v.sec]| == SECTOR && |v.cur| == SECTOR
  {
  }

  lemma PaddedStill(v: View, w: View)
    requires v.Padded() && w.ext == v.ext && w.sec == v.sec && w.Kept() == v.Kept() && w.fill <= SECTOR
    ensures w.Padded()
  {
    hide Flatten, Pads;
  }

  /** Text moved from the ring into the padding of the current sector. */
  lemma TakenText(front: seq<byte>, text: seq<byte>, unc: nat, n: nat, room: nat)
    requires unc + n <= |text| && n <= room
    ensures var cur, fill := front + text[..unc] + Pads(room), |front| + unc;
      cur[..fill] + text[unc..unc + n] + cur[fill + n..] == front + text[..unc + n] + Pads(room - n)
  {
    var cur, fill := front + text[..unc] + Pads(room), |front| + unc;
    assert cur[..fill] == front + text[..unc];
    assert cur[fill + n..] == Pads(room - n);
    assert text[..unc + n] == text[..unc] + text[unc..unc + n];
    Assoc(front, text[..unc], text[unc..unc + n]);
  }

  /** What reaches the card is the committed text, what was owed, and what was taken from the ring. */
  lemma PutKeeps(v: View)
    requires v.Filling() && v.Conserved()
    ensures var w := v.Put();
      && w.Placed() && w.Committed() == v.Committed() + v.owed + v.text[..v.unc] && w.Conserved()
      && |w.ext| == |v.ext| && w.ext[w.sec] == v.cur
      && (v.sec < |v.ext| - 1 ==> w.Filling())
  {
    hide Flatten, WellKnit, Dense, IsPadding;
    var w := v.Put();
    var kept, taken := v.ext[v.sec][..v.Kept()], v.text[..v.unc];
    assert w.ext[..w.sec] == v.ext[..v.sec];
    assert v.cur[..v.fill] == kept + v.owed + taken;
    PutText(Flatten(v.ext[..v.sec]), kept, v.owed, taken, v.text, v.unc);
    if v.sec < |v.ext| - 1 {
      PutFills(v);
    }
  }

  lemma PutText(front: seq<byte>, kept: seq<byte>, owed: seq<byte>, taken: seq<byte>, text: seq<byte>, unc: nat)
    requires unc <= |text| && taken == text[..unc]
    ensures var committed := front + (kept + owed + taken);
      && committed == front + kept + owed + taken
      && front + kept + owed + text == committed + [] + text[unc..]
  {
    Assoc(front, kept, owed);
    Assoc(front, kept + owed, taken);
    assert text == taken + text[unc..];
    Assoc(front + kept + owed, taken, text[unc..]);
  }

  lemma PutFills(v: View)
    requires v.Filling() && v.sec < |v.ext| - 1
    ensures v.Put().Filling()
  {
    hide Flatten;
    var w := v.Put();
    assert v.cur[..v.fill] + Pads(SECTOR - v.fill) == v.cur;
    assert w.text[..0] == [];
    assert w.ext[w.sec][..v.fill] + [] + [] == v.cur[..v.fill];
  }

  lemma PutFullKeeps(v: View)
    requires v.Filling() && v.Conserved() && v.sec < |v.ext| - 1 && v.fill == SECTOR
    ensures var w := v.PutFull();
      && w.Filling() && w.Conserved() && w.Committed() == v.Committed() + v.owed + v.text[..v.unc]
      && (v.Knit() ==> w.Knit())
  {
    hide WellKnit, Dense, Flatten, Trim, IsPadding;
    var u, w := v.Put(), v.PutFull();
    PutKeeps(v);
    assert w.ext[..w.sec] == u.ext[..u.sec] + [v.cur];
    FlattenSnoc(u.ext[..u.sec], v.cur);
    assert v.cur[..SECTOR] == v.cur;
    assert w.ext[w.sec] == Pads(SECTOR);
    assert w.ext[w.sec][..0] == [] && w.text[..0] == [];
    assert w.cur == [] + [] + [] + Pads(SECTOR);
    if v.Knit() {
      DenseSuffix(v.text, v.unc);
    }
  }

  /** A forced write of a part-filled sector comes after the ring was drained into it. */
  lemma PutPartKeeps(v: View)
    requires v.Filling() && v.Conserved() && v.sec < |v.ext| - 1 && v.unc == |v.text| && v.dirty
    ensures var w := v.Put();
      && w.Filling() && w.Conserved() && w.Committed() == v.story && w.text == []
      && (v.Knit() ==> w.Knit())
  {
    var w := v.Put();
    PutKeeps(v);
    assert v.text[..v.unc] == v.text && v.text[v.unc..] == [];
    assert w.Committed() == v.story;
    if v.Knit() {
      DenseSuffix(v.text, v.unc);
      assert v.fill > 0 && w.ext[w.sec][..v.fill][v.fill - 1] == w.Committed()[|w.Committed()| - 1];
    }
  }

  /** The closing message takes no text with it, written or not. */
  lemma StopKeeps(v: View, ext: seq<seq<byte>>)
    requires v.Filling() && v.Conserved() && v.sec == |v.ext| - 1
    requires ext == v.ext || ext == v.ext[v.sec := FullSector()]
    ensures v.unc == 0 && !v.dirty && v.owed == []
    ensures var w := v.(ext := ext, cur := FullSector());
      w.Stopped() && w.Placed() && w.Conserved() && w.Committed() == v.Committed() && (v.Knit() ==> w.Knit())
  {
    hide Flatten, WellKnit, Dense, FullSector;
    assert ext[..v.sec] == v.ext[..v.sec];
    assert ext[v.sec][..0] == [] && v.ext[v.sec][..0] == [];
  }

  /** With nothing left to write, the card tells the whole story. */
  lemma AllCommitted(v: View)
    requires v.Filling() && v.Conserved() && v.unc == |v.text| && !v.dirty
    ensures v.text == [] && v.Committed() == v.story
  {
    assert v.Committed() + [] + [] == v.Committed();
  }

  /** What a well-knit log leaves on the card: padding in a suffix, and the committed text in front of it. */
  lemma CardOfKnit(v: View)
    requires v.Padded() && v.Conserved() && v.Knit()
    ensures PaddedFrom(v.ext, if v.Kept() > 0 then v.sec + 1 else v.sec)
    ensures Trim(Flatten(v.ext)) == Trim(v.Committed())
    ensures v.Kept() > 0 ==> Trim(v.Committed()) == v.Committed()
  {
    hide WellKnit, Dense, Trim, Flatten;
    var first := if v.Kept() > 0 then v.sec + 1 else v.sec;
    forall i | 0 <= i < first ensures !IsPadding(v.ext[i]) {
      if i < v.sec {
        SectorOfStory(v, i);
      } else {
        assert v.ext[i][v.Kept() - 1] != PAD;
      }
    }
    var front, s, back := v.ext[..v.sec], v.ext[v.sec], v.ext[v.sec + 1..];
    assert v.ext == front + [s] + back;
    FlattenAppend(front + [s], back);
    FlattenSnoc(front, s);
    FlattenPadding(back);
    Assoc(Flatten(front), s[..v.Kept()], Pads(SECTOR - v.Kept()));
    TrimPadding(Flatten(front) + s, Flatten(back));
    TrimPadding(v.Committed(), Pads(SECTOR - v.Kept()));
    if v.Kept() > 0 {
      TrimKept(v.Committed());
    }
  }

  /** What a log that says it is full leaves on the card: no padding anywhere, and text into the last sector. */
  lemma CardOfTold(v: View)
    requires v.Placed() && v.Told() && v.Conserved() && v.Knit()
    ensures PaddedFrom(v.ext, |v.ext|) && |Trim(Flatten(v.ext))| / SECTOR >= |v.ext| - 1
  {
    hide WellKnit, Dense, Trim, Flatten, FullSector;
    FullIsText();
    forall i | 0 <= i < |v.ext| ensures !IsPadding(v.ext[i]) {
      if i < v.sec {
        SectorOfStory(v, i);
      }
    }
    EndOfText(v.ext, |v.ext|);
  }

  /** A sector on the card is a window of the story. */
  lemma SectorOfStory(v: View, i: nat)
    requires v.Placed() && v.Conserved() && WellKnit(v.story) && i < v.sec
    ensures !IsPadding(v.ext[i])
  {
    var done := v.ext[..v.sec];
    FlattenWindow(done, i);
    assert v.story == Flatten(done) + (v.ext[v.sec][..v.Kept()] + v.owed + v.text);
    assert Window(v.story, i) == Window(Flatten(done), i);
  }
}
