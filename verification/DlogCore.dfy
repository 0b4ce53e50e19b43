/** The debug log: text from the ring, written in place over a fixed run of sectors on a card that may fail. */
module DlogCore {
  import opened Bytes
  import opened DlogText
  import opened DlogView
  import opened DlogRing

  const WIPE_CHUNK: nat := 64

  function Repeat(s: seq<byte>, n: nat): (r: seq<seq<byte>>)
    ensures |r| == n && forall i :: 0 <= i < n ==> r[i] == s
  {
    seq(n, _ => s)
  }

  /** `ss` with `ts` in the place of as many of its sectors, from `at` on. */
  function Splice(ss: seq<seq<byte>>, at: nat, ts: seq<seq<byte>>): (r: seq<seq<byte>>)
    requires at + |ts| <= |ss|
    ensures |r| == |ss|
    ensures forall i :: 0 <= i < |ss| ==> r[i] == if at <= i < at + |ts| then ts[i - at] else ss[i]
  {
    ss[..at] + ts + ss[at + |ts|..]
  }

  /** The card, by sectors. A call that fails has written none of its sectors, or the first few of several. */
  class Disk {
    var data: seq<seq<byte>>
    /** How many writes have succeeded. */
    ghost var writes: nat
    /** No call on the card fails. */
    const sound: bool

    constructor (d: seq<seq<byte>>, s: bool)
      ensures data == d && sound == s
    {
      data, writes, sound := d, 0, s;
    }

    method Rd(lba: nat) returns (ok: bool, s: seq<byte>)
      requires lba < |data|
      ensures (ok ==> s == data[lba]) && (sound ==> ok)
    {
      var answers: bool := *;
      if answers || sound {
        return true, data[lba];
      }
      return false, [];
    }

    method Wr(lba: nat, secs: seq<seq<byte>>) returns (ok: bool)
      requires lba + |secs| <= |data|
      modifies this
      ensures ok ==> data == Splice(old(data), lba, secs)
      ensures !ok ==> exists k :: 0 <= k < |secs| && data == Splice(old(data), lba, secs[..k])
      ensures writes == old(writes) + if ok then 1 else 0
      ensures sound ==> ok
    {
      ghost var before := data;
      if secs == [] {
        writes := writes + 1;
        assert data == Splice(before, lba, secs);
        return true;
      }
      var k: nat :| k <= |secs| && (sound ==> k == |secs|) by {
        assert |secs| <= |secs| && (sound ==> |secs| == |secs|);
      }
      data := Splice(data, lba, secs[..k]);
      assert secs[..|secs|] == secs;
      writes := writes + if k == |secs| then 1 else 0;
      return k == |secs|;
    }
  }

  class Dlog {
    const ring: Ring
    const disk: Disk
    const lba0: nat
    const nsec: nat
    const cur: array<byte>
    var sec: nat
    var fill: nat
    var uncommitted: nat
    var wrErr: nat
    var ready: bool
    var active: bool
    var full: bool
    var abandoned: bool
    var dirty: bool
    /** A line ending added at open that is not on the card yet. */
    ghost var owed: seq<byte>
    /** The text found at open, the line ending added to it, and every line accepted since. */
    ghost var story: seq<byte>

    constructor (r: Ring, d: Disk, first: nat, count: nat)
      ensures ring == r && disk == d && lba0 == first && nsec == count
      ensures !ready && !active && !full && !abandoned && fresh(cur) && cur.Length == SECTOR
    {
      ring, disk, lba0, nsec := r, d, first, count;
      cur := new byte[SECTOR];
      sec, fill, uncommitted, wrErr := 0, 0, 0, 0;
      ready, active, full, abandoned, dirty := false, false, false, false, false;
      owed, story := [], [];
    }

    ghost predicate Shape()
      reads this, ring, disk, cur
    {
      && ring.Valid() && ring.data != cur && cur.Length == SECTOR
      && 8 <= nsec && lba0 + nsec <= |disk.data| && Sectors(disk.data)
    }

    /** The state as a value. */
    ghost function V(): (v: View)
      requires Shape()
      reads this, ring, ring.data, disk, cur
      ensures |v.ext| == nsec && Sectors(v.ext) && |v.cur| == SECTOR
    {
      View(disk.data[lba0..lba0 + nsec], cur[..], sec, fill, uncommitted, dirty, owed, ring.Text(), story)
    }

    ghost predicate Valid()
      reads this, ring, ring.data, disk, cur
    {
      && Shape()
      && (ready && !abandoned ==> (if full then V().Stopped() else V().Filling()) && V().Conserved())
    }

    /** The log may still write. */
    ghost predicate Live()
      reads this
    {
      ready && active && !full && !abandoned
    }

    /** The card's filesystem is the host's from here on, and the log may overwrite the sectors of its own file. */
    method Activate()
      requires Valid()
      modifies this`active
      ensures Valid() && V() == old(V()) && active == (old(active) || (ready && !abandoned))
      ensures ready && !abandoned && !full ==> Live()
    {
      if ready && !abandoned {
        active := true;
      }
    }

    /** A line is accepted as a unit or refused as one. */
    method Log(s: seq<byte>) returns (stored: bool)
      requires Valid() && |s| < TWO_32
      modifies this`story, ring`head, ring`lost, ring.data
      ensures Valid() && disk.data == old(disk.data)
      ensures stored == (|old(ring.Text())| + |s| <= RING)
      ensures V() == if stored then old(V()).Said(s) else old(V())
      ensures ready && !abandoned && old(V().Knit()) && Line(s) ==> V().Knit()
    {
      hide Flatten, WellKnit, Dense, RingBytes, Chatter, View.Knit, View.Filling, View.Committed, View.Conserved;
      ghost var v := V();
      stored := Accept(s);
      if stored && ready && !abandoned {
        if Line(s) {
          LineIsChatter(s);
        }
        if !full {
          FillingMeans(v);
        }
        SaidKeeps(v, s);
      }
    }

    method Accept(s: seq<byte>) returns (stored: bool)
      requires Shape() && |s| < TWO_32
      modifies this`story, ring`head, ring`lost, ring.data
      ensures Shape() && stored == (|old(ring.Text())| + |s| <= RING)
      ensures V() == if stored then old(V()).Said(s) else old(V())
    {
      stored := ring.Put(s);
      if stored {
        story := story + s;
      }
    }

    /** Interrupts that log any number of lines, while the main loop is anywhere in a flush. */
    method Interrupts() returns (ghost said: seq<byte>)
      requires Shape()
      modifies this`story, ring`head, ring`lost, ring.data
      ensures Shape() && V() == old(V()).Said(said) && Chatter(said)
    {
      hide RingBytes, Chatter, Sectors;
      said := [];
      SilenceIsChatter();
      ghost var v := V();
      assert v.Said([]) == v;
      var n: nat := *;
      while n > 0
        invariant Shape() && V() == v.Said(said) && Chatter(said)
      {
        var line: seq<byte> := *;
        if Line(line) {
          var stored := Accept(line);
          if stored {
            LineIsChatter(line);
            ChatterGoesOn(said, line);
            SaidTwice(v, said, line);
            said := said + line;
          }
        }
        n := n - 1;
      }
    }

    method PutSector() returns (ok: bool, ghost said: seq<byte>)
      requires Shape() && V().Placed() && uncommitted <= |ring.Text()|
      modifies disk, ring, ring.data, this`wrErr, this`uncommitted, this`dirty, this`owed, this`story
      ensures Shape() && Chatter(said) && V() == if ok then old(V()).Said(said).Put() else old(V()).Said(said)
      ensures wrErr == old(wrErr) + (if ok then 0 else 1) && disk.writes == old(disk.writes) + if ok then 1 else 0
      ensures Outside(old(disk.data))
      ensures disk.sound ==> ok
    {
      hide RingBytes, Chatter, Sectors, View.Said, View.Put, Splice;
      ghost var v := V();
      ok := WriteCur();
      said := Interrupts();
      WrittenSaid(v, said);
      if ok {
        Forget(v.Said(said));
      }
    }

    /** The card has what was in the current sector; the ring may let go of it. */
    method Forget(ghost v: View)
      requires Shape() && v.sec < |v.ext| && v.unc <= |v.text| && V() == v.(ext := v.ext[v.sec := v.cur])
      modifies ring`tail, this`uncommitted, this`dirty, this`owed
      ensures Shape() && V() == v.Put()
    {
      hide RingBytes;
      ring.Consume(uncommitted);
      uncommitted, dirty, owed := 0, false, [];
    }

    /** Copies `n` of the waiting bytes that are not in the current sector yet. */
    method CopyIn(n: nat) returns (ghost said: seq<byte>)
      requires Shape() && fill + n <= SECTOR && uncommitted + n <= |ring.Text()|
      modifies cur, this`story, ring`head, ring`lost, ring.data
      ensures Shape() && Chatter(said) && V() == old(V()).Said(said).(cur := old(V()).Copied(n))
    {
      hide RingBytes, Behind, Chatter, Sectors, View.Said, View.Copied;
      ghost var v := V();
      var i := 0;
      said := [];
      SilenceIsChatter();
      NothingCopied(v);
      while i < n
        invariant 0 <= i <= n && Shape() && Chatter(said) && V() == v.Said(said).(cur := v.Copied(i))
      {
        said := CopyByte(i, v, said);
        i := i + 1;
      }
    }

    /** The next byte, after any interrupts. */
    method CopyByte(i: nat, ghost v: View, ghost before: seq<byte>) returns (ghost said: seq<byte>)
      requires Shape() && Chatter(before) && |v.cur| == SECTOR && v.fill + i < SECTOR && v.unc + i < |v.text|
      requires V() == v.Said(before).(cur := v.Copied(i))
      modifies cur, this`story, ring`head, ring`lost, ring.data
      ensures Shape() && Chatter(said) && V() == v.Said(said).(cur := v.Copied(i + 1))
    {
      hide RingBytes, Behind, Chatter, Sectors;
      ghost var more := Interrupts();
      said := before + more;
      ChatterGoesOn(before, more);
      SaidTwice(v, before, more);
      NextByte(i, v.cur, v.text, said);
    }

    method NextByte(i: nat, ghost c: seq<byte>, ghost text: seq<byte>, ghost said: seq<byte>)
      requires Shape() && fill + i < SECTOR && uncommitted + i < |text| && ring.Text() == text + said && |c| == SECTOR
      requires cur[..] == c[..fill] + text[uncommitted..uncommitted + i] + c[fill + i..]
      modifies cur
      ensures cur[..] == c[..fill] + text[uncommitted..uncommitted + i + 1] + c[fill + i + 1..]
    {
      hide RingBytes, Behind;
      SlotAt(ring.data[..], ring.tail, Behind(ring.head, ring.tail), uncommitted + i);
      var b := ring.data[(ring.tail + uncommitted + i) % TWO_32 % RING];
      assert text[uncommitted..uncommitted + i + 1] == text[uncommitted..uncommitted + i] + [b];
      OneMore(c, fill, text[uncommitted..uncommitted + i], b);
      cur[fill + i] := b;
    }

    /** Moves what the ring holds into the current sector, as far as it fits. */
    method TakeText() returns (ghost said: seq<byte>)
      requires Shape() && V().Placed() && uncommitted <= |ring.Text()|
      modifies cur, this`fill, this`uncommitted, this`dirty, this`story, ring`head, ring`lost, ring.data
      ensures Shape() && Chatter(said) && V() == old(V()).Take().Said(said)
    {
      hide RingBytes, Flatten, Sectors, Chatter, View.Take, View.Said, View.Copied, View.Placed;
      ghost var v := V();
      PlacedMeans(v);
      var avail, room := Behind(ring.head, ring.tail) - uncommitted, SECTOR - fill;
      var n := if avail < room then avail else room;
      assert n == v.Takes();
      said := CopyIn(n);
      TakenLate(v, said);
      ghost var w := V();
      if n > 0 {
        fill, uncommitted, dirty := fill + n, uncommitted + n, true;
      }
      assert V() == w.(fill := v.fill + n, unc := v.unc + n, dirty := v.dirty || n > 0);
    }

    method ClearCur()
      requires cur.Length == SECTOR
      modifies cur
      ensures cur[..] == Pads(SECTOR)
    {
      forall i | 0 <= i < SECTOR {
        cur[i] := PAD;
      }
    }

    method WriteMessage(text: seq<byte>)
      requires cur.Length == SECTOR && |text| <= SECTOR
      modifies cur
      ensures cur[..] == text + Pads(SECTOR - |text|)
    {
      ClearCur();
      for i := 0 to |text|
        invariant cur[..] == text[..i] + Pads(SECTOR - i)
      {
        cur[i] := text[i];
      }
      assert text[..|text|] == text;
    }

    /** A session that reaches the final sector leaves a notice there instead of log text, and ends. */
    method StopFull() returns (ok: bool)
      requires Valid() && Live() && sec >= nsec - 1
      modifies this, cur, disk, ring, ring.data
      ensures ready && !abandoned && active == old(active) && full && wrErr == old(wrErr) + if ok then 0 else 1
      ensures disk.writes == old(disk.writes) + if ok then 1 else 0
      ensures Valid() && (old(V().Knit()) ==> V().Knit())
      ensures V().Committed() == old(V().Committed()) && old(ring.Text()) <= ring.Text() && old(story) <= story
      ensures Outside(old(disk.data))
      ensures ok ==> disk.data[lba0 + nsec - 1] == FullSector()
      ensures disk.sound ==> ok
    {
      hide Flatten, WellKnit, Dense, RingBytes, Chatter, Ascii, Pads, View.Filling, View.Stopped, View.Conserved, View.Committed, View.Knit;
      ghost var v, before := V(), disk.data;
      FillingMeans(v);
      WriteMessage(FULL_MSG);
      sec, uncommitted := nsec - 1, 0;
      ok := WriteCur();
      ghost var said := Interrupts();
      if ok {
        ring.Consume(uncommitted);
        dirty := false;
      }
      full := true;
      ghost var w := v.(ext := if ok then v.ext[v.sec := FullSector()] else v.ext, cur := FullSector());
      StopKeeps(v, w.ext);
      SaidStopped(w, said);
      assert V() == w.Said(said);
    }

    /** The current sector to the card, with the error counted. */
    method WriteCur() returns (ok: bool)
      requires Shape() && sec < nsec
      modifies disk, this`wrErr
      ensures wrErr == old(wrErr) + (if ok then 0 else 1) && disk.writes == old(disk.writes) + if ok then 1 else 0
      ensures Shape() && disk.data == if ok then old(disk.data)[lba0 + sec := cur[..]] else old(disk.data)
      ensures V() == if ok then old(V()).(ext := old(V()).ext[sec := cur[..]]) else old(V())
      ensures disk.sound ==> ok
    {
      ghost var before := disk.data;
      ok := disk.Wr(lba0 + sec, [cur[..]]);
      if ok {
        assert disk.data == before[lba0 + sec := cur[..]];
        assert disk.data[lba0..lba0 + nsec] == before[lba0..lba0 + nsec][sec := cur[..]];
      } else {
        assert forall t: seq<seq<byte>> :: |t| == 0 ==> Splice(before, lba0 + sec, t) == before;
        wrErr := wrErr + 1;
      }
    }

    /**
     * Full sectors go out always, the part-filled one when forced; what is left waiting is in the current sector.
     * However the writes fail, and whatever is logged meanwhile, the card, what is owed and the ring still tell the
     * story, and the text on the card only grows.
     */
    method Flush(force: bool, most: nat) returns (written: nat)
      requires Valid()
      modifies this, cur, disk, ring, ring.data
      ensures Valid() && written <= most && old(story) <= story
      ensures ready == old(ready) && active == old(active) && abandoned == old(abandoned) && (old(full) ==> full)
      ensures !old(Live()) ==> written == 0 && disk.data == old(disk.data) && V() == old(V())
      ensures Outside(old(disk.data))
      ensures old(Live()) ==> old(V().Committed()) <= V().Committed() && (old(V().Knit()) ==> V().Knit())
      ensures written == disk.writes - old(disk.writes)
      ensures old(Live()) ==> sec <= old(sec) + written && (!full ==> old(sec) + written <= sec + if force then 1 else 0)
      ensures old(Live()) && written < most && !full && wrErr == old(wrErr) ==> |ring.Text()| - uncommitted <= |story| - |old(story)|
      ensures old(Live()) && force && written < most && !full && wrErr == old(wrErr) ==>
        old(story) <= V().Committed() && (story == old(story) ==> ring.Text() == [])
      ensures disk.sound ==> wrErr == old(wrErr)
    {
      hide Flatten, WellKnit, Dense, RingBytes;
      written := 0;
      if !ready || !active || full || abandoned {
        return;
      }
      var more := true;
      ghost var done, knit := V().Committed(), V().Knit();
      while more && written < most
        invariant Valid() && ready && active && !abandoned && old(story) <= story && written <= most && wrErr >= old(wrErr)
        invariant !more || !full
        invariant Outside(old(disk.data)) && done <= V().Committed() && (knit ==> V().Knit())
        invariant written == disk.writes - old(disk.writes)
        invariant sec <= old(sec) + written && (!full ==> old(sec) + written <= sec + if more || !force then 0 else 1)
        invariant disk.sound ==> wrErr == old(wrErr)
        invariant !more && !full && wrErr == old(wrErr) ==> |ring.Text()| - uncommitted <= |story| - |old(story)|
        invariant !more && force && !full && wrErr == old(wrErr) ==> old(story) <= V().Committed()
        decreases more, nsec - sec
      {
        if sec >= nsec - 1 {
          var ok := StopFull();
          written, more := written + if ok then 1 else 0, false;
        } else {
          var ok;
          ok, more := OneSector(force);
          written := written + if ok then 1 else 0;
        }
      }
    }

    /** A full sector to the card, and on to the next. */
    method FinishSector() returns (ok: bool, ghost said: seq<byte>)
      requires Shape() && V().Placed() && uncommitted <= |ring.Text()| && sec < nsec - 1
      modifies this, cur, disk, ring, ring.data
      ensures Shape() && Chatter(said) && V() == if ok then old(V()).Said(said).PutFull() else old(V()).Said(said)
      ensures ready == old(ready) && active == old(active) && full == old(full) && abandoned == old(abandoned)
      ensures wrErr == old(wrErr) + (if ok then 0 else 1) && disk.writes == old(disk.writes) + if ok then 1 else 0
      ensures Outside(old(disk.data))
      ensures disk.sound ==> ok
    {
      hide Chatter;
      ok, said := PutSector();
      if ok {
        sec, fill := sec + 1, 0;
        ClearCur();
      }
    }

    /** Before the turn's write: what waited is in the current sector, as far as it fits, and `said` was said since. */
    method FillCur() returns (ghost u: View, ghost said: seq<byte>)
      requires Valid() && Live() && sec < nsec - 1
      modifies cur, this`fill, this`uncommitted, this`dirty, this`story, ring`head, ring`lost, ring.data
      ensures Shape() && Chatter(said) && V() == u.Said(said) && disk.data == old(disk.data)
      ensures u.Filling() && u.Conserved() && old(story) <= u.story && |u.ext| == nsec
      ensures u.Committed() == old(V().Committed()) && (old(V().Knit()) ==> u.Knit())
      ensures u.fill < SECTOR ==> u.unc == |u.text|
      ensures u.Placed() && u.unc <= |u.text| && V().Placed() && uncommitted <= |ring.Text()|
    {
      hide Flatten, WellKnit, Dense, RingBytes, Chatter, View.Filling, View.Conserved, View.Committed, View.Knit, View.Take;
      ghost var v := V();
      FillingMeans(v);
      said := Interrupts();
      SaidKeeps(v, said);
      ghost var w := V();
      FillingMeans(w);
      TakeKeeps(w);
      said := TakeText();
      u := w.Take();
      FillingMeans(u);
      TakenStory(w);
    }

    /** The write of a full sector. `x` is what it comes to but for what was said since the sector was filled. */
    method WriteFull(ghost u: View, ghost said: seq<byte>) returns (ok: bool, ghost x: View, ghost all: seq<byte>)
      requires Shape() && V() == u.Said(said) && Chatter(said) && u.Filling() && u.Conserved()
      requires sec < nsec - 1 && fill == SECTOR
      modifies this, cur, disk, ring, ring.data
      ensures Shape() && V() == x.Said(all) && Chatter(all) && Outside(old(disk.data))
      ensures ready == old(ready) && active == old(active) && full == old(full) && abandoned == old(abandoned)
      ensures wrErr == old(wrErr) + (if ok then 0 else 1) && disk.writes == old(disk.writes) + if ok then 1 else 0
      ensures x.Filling() && x.Conserved() && x.story == u.story && x.unc <= |x.text|
      ensures x.sec == u.sec + if ok then 1 else 0
      ensures x.Placed() && u.Placed() && u.Committed() <= x.Committed() && (u.Knit() ==> x.Knit())
      ensures disk.sound ==> ok
    {
      hide Flatten, WellKnit, Dense, RingBytes, Chatter, View.Filling, View.Conserved, View.Committed, View.Knit;
      FillingMeans(u);
      PutFullKeeps(u);
      ghost var late;
      ok, late := FinishSector();
      SaidPut(u, said, late);
      ChatterGoesOn(said, late);
      x, all := if ok then u.PutFull() else u, said + late;
      FillingMeans(x);
    }

    /** The write of a part-filled sector into which the ring was drained. */
    method WritePart(ghost u: View, ghost said: seq<byte>) returns (ok: bool, ghost x: View, ghost all: seq<byte>)
      requires Shape() && V() == u.Said(said) && Chatter(said) && u.Filling() && u.Conserved()
      requires sec < nsec - 1 && u.unc == |u.text| && dirty
      modifies this, cur, disk, ring, ring.data
      ensures Shape() && V() == x.Said(all) && Chatter(all) && Outside(old(disk.data))
      ensures ready == old(ready) && active == old(active) && full == old(full) && abandoned == old(abandoned)
      ensures wrErr == old(wrErr) + (if ok then 0 else 1) && disk.writes == old(disk.writes) + if ok then 1 else 0
      ensures x.Filling() && x.Conserved() && x.story == u.story && x.sec == u.sec && x.unc == |x.text|
      ensures x.Placed() && u.Placed() && u.Committed() <= x.Committed() && (u.Knit() ==> x.Knit())
      ensures ok ==> x.Committed() == u.story
      ensures disk.sound ==> ok
    {
      hide Flatten, WellKnit, Dense, RingBytes, Chatter, View.Filling, View.Conserved, View.Committed, View.Knit;
      FillingMeans(u);
      PutPartKeeps(u);
      PutKeeps(u);
      ghost var late;
      ok, late := PutSector();
      SaidPut(u, said, late);
      ChatterGoesOn(said, late);
      x, all := if ok then u.Put() else u, said + late;
      FillingMeans(x);
    }

    /** One turn of the flush: fill the current sector, and write it if it is full or wanted. */
    method OneSector(force: bool) returns (ok: bool, more: bool)
      requires Valid() && Live() && sec < nsec - 1
      modifies this, cur, disk, ring, ring.data
      ensures Valid() && Live() && old(story) <= story && Outside(old(disk.data))
      ensures old(V().Committed()) <= V().Committed() && (old(V().Knit()) ==> V().Knit())
      ensures wrErr >= old(wrErr)
      ensures disk.writes == old(disk.writes) + if ok then 1 else 0
      ensures sec == old(sec) + (if more then 1 else 0) && (more ==> ok) && (ok ==> more || force)
      ensures !more && wrErr == old(wrErr) ==> |ring.Text()| - uncommitted <= |story| - |old(story)|
      ensures !more && force && wrErr == old(wrErr) ==> old(story) <= V().Committed()
      ensures disk.sound ==> wrErr == old(wrErr)
    {
      hide Flatten, WellKnit, Dense, RingBytes, Chatter, View.Filling, View.Conserved, View.Committed, View.Knit, View.Take, View.Put, View.PutFull;
      ok, more := false, false;
      ghost var u, said := FillCur();
      ghost var x, all := u, said;
      if fill == SECTOR {
        ok, x, all := WriteFull(u, said);
        more := ok;
      } else if force && dirty {
        ok, x, all := WritePart(u, said);
      } else if !dirty {
        AllCommitted(u);
      }
      SaidKeeps(x, all);
    }

    /** Clears sectors of the file, a chunk of them per write. */
    method Wipe(from: nat, count: nat) returns (ok: bool)
      requires Shape() && from + count <= nsec
      modifies disk
      ensures Shape() && Outside(old(disk.data))
      ensures ok ==> disk.data == Splice(old(disk.data), lba0 + from, Repeat(Pads(SECTOR), count))
      ensures disk.sound ==> ok
    {
      hide Repeat, Splice;
      ghost var before := disk.data;
      var done := 0;
      assert disk.data == Splice(before, lba0 + from, Repeat(Pads(SECTOR), done));
      while done < count
        invariant 0 <= done <= count && disk.data == Splice(before, lba0 + from, Repeat(Pads(SECTOR), done))
      {
        var n := if count - done > WIPE_CHUNK then WIPE_CHUNK else count - done;
        ok := disk.Wr(lba0 + from + done, Repeat(Pads(SECTOR), n));
        if !ok {
          return false;
        }
        SpliceRun(before, lba0 + from, Pads(SECTOR), done, n);
        done := done + n;
      }
      return true;
    }

    /** Bisection for where the padding sectors begin, exact when they are a suffix of the file. */
    method Bisect(ghost first: nat) returns (ok: bool, lo: nat)
      requires Shape()
      modifies cur
      ensures disk.sound ==> ok
      ensures ok ==> lo <= nsec && (PaddedFrom(V().ext, first) ==> lo == first)
    {
      hide Flatten, Trim;
      ghost var ext := V().ext;
      lo := 0;
      var hi := nsec;
      while lo < hi
        invariant 0 <= lo <= hi <= nsec && V().ext == ext
        invariant PaddedFrom(ext, first) ==> lo <= first <= hi
      {
        var mid := lo + (hi - lo) / 2;
        var s;
        ok, s := disk.Rd(lba0 + mid);
        if !ok {
          return;
        }
        SetCur(s);
        assert s == ext[mid];
        if IsPadding(s) {
          hi := mid;
        } else {
          lo := mid + 1;
        }
      }
      ok := true;
    }

    /** When padding is a suffix of the file, this lands exactly where the text ends, trailing spaces left off. */
    method Locate(ghost first: nat) returns (ok: bool, cut: bool)
      requires Shape()
      modifies cur, this`sec, this`fill
      ensures disk.sound ==> ok
      ensures ok ==> sec <= nsec && fill < SECTOR && (fill > 0 ==> sec < nsec && cur[..] == V().ext[sec])
      ensures ok && PaddedFrom(V().ext, first) ==> var t := Trim(Flatten(V().ext));
        sec == |t| / SECTOR && fill == |t| % SECTOR && cut == (t != [] && t[|t| - 1] != LF)
    {
      hide Flatten, Trim;
      ghost var ext := V().ext;
      var lo;
      cut := false;
      ok, lo := Bisect(first);
      if !ok {
        return;
      }
      sec, fill := lo, 0;
      if lo > 0 {
        var s;
        ok, s := disk.Rd(lba0 + lo - 1);
        if !ok {
          return;
        }
        SetCur(s);
        assert s == ext[lo - 1];
        var i := LastText(s);
        cut := i > 0 && s[i - 1] != LF;
        if i < SECTOR {
          sec, fill := lo - 1, i;
        }
      }
      if PaddedFrom(ext, first) {
        EndOfText(ext, lo);
      }
    }

    method SetCur(s: seq<byte>)
      requires cur.Length == SECTOR == |s|
      modifies cur
      ensures cur[..] == s
    {
      forall i | 0 <= i < SECTOR {
        cur[i] := s[i];
      }
    }

    /** Whether a file whose text reaches into sector `at` starts over from the top: under a quarter is left. */
    predicate StartsOver(at: nat) {
      nsec - at < nsec / 4
    }

    /** What a session finds: nothing in a new file or in one that starts over, else the text without its trailing spaces. */
    function Found(ext: seq<seq<byte>>, anew: bool): seq<byte> {
      var t := Trim(Flatten(ext));
      if anew || StartsOver(|t| / SECTOR) then [] else t
    }

    /** Clears the first `used` sectors, which leaves an empty file if the rest is padding already. */
    method ClearFile(used: nat) returns (ok: bool)
      requires Shape() && used <= nsec
      modifies disk
      ensures Shape() && Outside(old(disk.data)) && (disk.sound ==> ok)
      ensures ok && (forall i :: used <= i < nsec ==> old(V().ext)[i] == Pads(SECTOR)) ==>
        Opens(V().ext, [], 0, 0, Pads(SECTOR))
    {
      ghost var ext := V().ext;
      ok := Wipe(0, used);
      if ok && forall i :: used <= i < nsec ==> ext[i] == Pads(SECTOR) {
        forall i | 0 <= i < nsec ensures V().ext[i] == Pads(SECTOR) {
          if i >= used {
            assert V().ext[i] == ext[i];
          }
        }
        AllPadding(V().ext);
      }
    }

    /** Finds where to go on writing, or clears the file. */
    method FindStart(anew: bool, ghost first: nat) returns (ok: bool, cut: bool)
      requires Shape()
      modifies cur, disk, this`sec, this`fill
      ensures Shape() && Outside(old(disk.data)) && (ok ==> fill < SECTOR && sec <= nsec - 2) && (disk.sound ==> ok)
      ensures ok && (anew || PaddedFrom(old(V().ext), first)) ==>
        var base := Found(old(V().ext), anew);
        Opens(V().ext, base, sec, fill, cur[..]) && cut == (base != [] && base[|base| - 1] != LF)
      ensures ok && !anew && PaddedFrom(old(V().ext), first) ==>
        var t := Trim(Flatten(old(V().ext)));
        Opens(V().ext, if nsec - |t| / 512 >= nsec / 4 then t else [], sec, fill, cur[..])
      ensures ok && anew ==> Opens(V().ext, [], sec, fill, cur[..])
    {
      hide Flatten, Trim;
      ghost var ext := V().ext;
      cut := false;
      if anew {
        ok := ClearFile(nsec);
        sec, fill := 0, 0;
      } else {
        ok, cut := Locate(first);
        if ok && StartsOver(sec) {
          var used := sec + if fill > 0 then 1 else 0;
          if used > nsec {
            used := nsec;
          }
          if PaddedFrom(ext, first) {
            UsedCovers(ext, first, used);
          }
          ok := ClearFile(used);
          sec, fill, cut := 0, 0, false;
        }
      }
      if !ok {
        return;
      }
      if fill == 0 {
        ClearCur();
      }
      if anew || PaddedFrom(ext, first) {
        if !anew && !StartsOver(|Trim(Flatten(ext))| / SECTOR) {
          if Trim(Flatten(ext)) == [] {
            EmptyFile(ext, first);
          } else {
            OpensAtText(ext, first);
          }
        }
      }
    }

    /** A line ending for a text that stops in the middle of one; a sector with one byte left gets LF alone. */
    method EndLine()
      requires cur.Length == SECTOR && fill < SECTOR && owed == []
      modifies cur, this`fill, this`owed, this`dirty
      ensures owed == (if old(fill) + 2 <= SECTOR then [CR, LF] else [LF]) && dirty && fill == old(fill) + |owed|
      ensures cur[..] == old(cur[..])[..old(fill)] + owed + old(cur[..])[fill..]
    {
      if fill + 2 <= SECTOR {
        cur[fill] := CR;
        fill := fill + 1;
        owed := [CR];
      }
      cur[fill] := LF;
      fill := fill + 1;
      owed := owed + [LF];
      dirty := true;
    }

    /** Goes to the place where the text stops, and adds what its last line lacks. */
    method Settle(anew: bool, ghost first: nat) returns (ok: bool)
      requires Shape() && owed == [] && !dirty
      modifies cur, disk, this`sec, this`fill, this`owed, this`dirty
      ensures Shape() && Outside(old(disk.data))
      ensures (ok ==> sec <= nsec - 2) && (disk.sound ==> ok)
      ensures ok && (anew || PaddedFrom(old(V().ext), first)) ==>
        Settled(V(), Found(old(V().ext), anew))
    {
      hide Flatten, Trim, RingBytes, PaddedFrom, Found, StartsOver, IsPadding, Opens, Settled, Ending, Pads;
      ghost var ext := V().ext;
      var cut;
      ok, cut := FindStart(anew, first);
      if !ok {
        return;
      }
      ghost var c, at := cur[..], fill;
      if cut {
        EndLine();
      } else {
        assert cur[..] == c[..at] + [] + c[at..];
      }
      if anew || PaddedFrom(ext, first) {
        IsSettled(V(), Found(ext, anew), c, at);
      }
    }

    method Clear()
      modifies this
      ensures uncommitted == wrErr == sec == fill == 0 && owed == [] && !ready && !active && !full && !abandoned && !dirty
    {
      uncommitted, wrErr, ready, active, full, abandoned, dirty := 0, 0, false, false, false, false, false;
      owed, sec, fill := [], 0, 0;
    }

    /**
     * Takes over the file. What is found is the text up to its last byte that is not a space, or nothing when the
     * file is new or is cleared; a line that was cut is ended.
     */
    method Open(anew: bool, ghost first: nat) returns (ok: bool)
      requires nsec >= 8 ==> Shape()
      modifies this, cur, disk
      ensures nsec < 8 ==> !ok
      ensures disk.sound ==> (ok <==> nsec >= 8)
      ensures nsec >= 8 ==> Shape() && Outside(old(disk.data))
      ensures ok ==> ready && !abandoned && !full && !active && sec <= nsec - 2
      ensures ok && (anew || PaddedFrom(old(V().ext), first)) ==>
        var base := Found(old(V().ext), anew);
        && Valid()
        && V().Committed() == base && owed == Ending(base) && story == base + owed + ring.Text()
        && (Dense(ring.Text()) ==> V().Knit())
      ensures ok && anew ==> Valid() && V().Committed() == []
      ensures ok && !anew && PaddedFrom(old(V().ext), first) ==>
        var t := Trim(Flatten(old(V().ext)));
        && Valid() && (nsec - |t| / 512 >= nsec / 4 ==> V().Committed() == t)
        && (nsec - |t| / 512 < nsec / 4 ==> V().Committed() == [])
      ensures ok && (anew || PaddedFrom(old(V().ext), first)) ==> LineEnded(V().Committed(), owed)
    {
      hide Flatten, Trim, WellKnit, Dense, RingBytes, View.Filling, View.Conserved, View.Knit, View.Committed, PaddedFrom, Settled;
      if nsec < 8 {
        return false;
      }
      ghost var ext := V().ext;
      Clear();
      ok := Settle(anew, first);
      if !ok {
        return;
      }
      ghost var base, v := Found(ext, anew), V();
      story := base + owed + ring.Text();
      ready := true;
      if anew || PaddedFrom(ext, first) {
        assert V() == v.(story := story);
        Opened(v, story, base, ext, first);
      }
    }

    /** A text that stops inside a line is owed a line ending, cut to one byte in the last byte of a sector. */
    static predicate LineEnded(text: seq<byte>, more: seq<byte>) {
      if text == [] || text[|text| - 1] == 0x0A then more == []
      else if |text| % 512 == 511 then more == [0x0A] else more == [0x0D, 0x0A]
    }

    /** Nothing but the file's own sectors is different. */
    twostate predicate Outside(before: seq<seq<byte>>)
      reads this, disk
    {
      |disk.data| == |before| && forall i :: 0 <= i < |before| && !(lba0 <= i < lba0 + nsec) ==> disk.data[i] == before[i]
    }

    /** A write of `count` sectors from `lba` by the host ends logging for good if it shares a sector with the file. */
    method HostWrote(lba: u32, count: u32)
      requires Valid()
      modifies this`abandoned, this`active
      ensures Valid() && (old(abandoned) ==> abandoned)
      ensures !old(ready && !abandoned) ==> abandoned == old(abandoned) && active == old(active)
      ensures old(ready && !abandoned) && lba0 + nsec < TWO_32 && lba + count < TWO_32 && count > 0 ==>
        (abandoned <==> exists k: nat :: Covers(lba, count, k) && Covers(lba0, nsec, k))
      ensures abandoned && !old(abandoned) ==> !active
    {
      if !ready || abandoned {
        return;
      }
      ghost var k := if lba < lba0 then lba0 else lba;
      assert count > 0 && lba < lba0 + nsec && lba + count > lba0 ==> Covers(lba, count, k) && Covers(lba0, nsec, k);
      if lba < (lba0 + nsec) % TWO_32 && (lba + count) % TWO_32 > lba0 {
        abandoned, active := true, false;
      }
    }
  }

  /**
   * A reset or a power cut, and the next start on the same card. `r` is the ring found then: the old one after a
   * reset, any other after a power cut. Exactly the text that was on the card is found, but for spaces at its end,
   * unless the log says it is full or less than nsec / 4 sectors remain; what the ring held follows it.
   */
  method Restart(d: Dlog, r: Ring) returns (e: Dlog, ok: bool)
    requires d.Valid() && d.ready && !d.abandoned && d.V().Knit()
    requires r.Valid() && Dense(r.Text())
    modifies d.disk
    ensures fresh(e) && e.disk == d.disk && e.ring == r && r.Text() == old(r.Text()) && (d.disk.sound ==> ok)
    ensures ok ==> var t := Trim(old(d.V().Committed()));
      var base := if old(d.V().Told()) || d.StartsOver(|t| / SECTOR) then [] else t;
      && e.ready && !e.abandoned && !e.full && e.Valid() && e.V().Committed() == base && e.sec <= e.nsec - 2
      && e.story == base + Ending(base) + r.Text() && e.V().Knit()
    ensures ok && !old(d.V().Told()) ==> var t := Trim(old(d.V().Committed()));
      && e.nsec == d.nsec && e.Valid() && (d.nsec - |t| / 512 >= d.nsec / 4 ==> e.V().Committed() == t)
      && (d.nsec - |t| / 512 < d.nsec / 4 ==> e.V().Committed() == [])
    ensures ok && old(d.V().Told()) ==> e.Valid() && e.V().Committed() == []
    ensures ok ==> e.Valid() && Dlog.LineEnded(e.V().Committed(), e.owed)
  {
    hide Flatten, Trim, WellKnit, Dense, RingBytes, View.Conserved, View.Knit, View.Committed, PaddedFrom;
    ghost var v, first := d.V(), d.nsec;
    if v.Told() {
      CardOfTold(v);
    } else {
      first := if v.Kept() > 0 then v.sec + 1 else v.sec;
      CardOfKnit(v);
    }
    e := new Dlog(r, d.disk, d.lba0, d.nsec);
    assert e.disk.data[e.lba0..e.lba0 + e.nsec] == v.ext;
    ok := e.Open(false, first);
  }

  /** A new log on a sound card, open and allowed to write; its story begins with what the ring held. */
  method NewLog(r: Ring, count: nat) returns (d: Dlog)
    requires r.Valid() && Dense(r.Text()) && 8 <= count
    ensures fresh(d) && fresh(d.disk) && fresh(d.cur) && d.ring == r && d.nsec == count && d.disk.sound
    ensures d.Valid() && d.Live() && d.V().Knit() && d.story == r.Text() && d.sec == 0
  {
    hide Flatten, WellKnit, Dense, RingBytes, Trim, PaddedFrom, Ascii, View.Knit, View.Committed;
    var disk := new Disk(Repeat(Pads(SECTOR), count), true);
    d := new Dlog(r, disk, 0, count);
    var ok := d.Open(true, 0);
    NothingCommitted(d.V());
    d.Activate();
  }

  /**
   * The first session on a new file: what the ring held, and then the line, is on the card once it is flushed, whatever
   * is logged meanwhile, if the flush was allowed one write more than it took.
   */
  method FirstSession(r: Ring, line: seq<byte>, count: nat, most: nat) returns (d: Dlog, written: nat)
    requires r.Valid() && Dense(r.Text()) && Line(line) && |r.Text()| + |line| <= RING && 8 <= count && most + 2 <= count
    modifies r, r.data
    ensures fresh(d) && fresh(d.disk) && d.ring == r && d.nsec == count && d.Valid() && d.Live() && d.V().Knit()
    ensures old(r.Text()) + line <= d.story && (written < most ==> old(r.Text()) + line <= d.V().Committed())
  {
    hide Flatten, WellKnit, Dense, RingBytes, Ascii, View.Knit, View.Committed, View.Conserved, View.Filling;
    d := NewLog(r, count);
    assert |line| <= 200;
    hide Line;
    var stored := d.Log(line);
    assert d.story == old(r.Text()) + line;
    written := d.Flush(true, most);
  }

  lemma NothingCommitted(v: View)
    requires v.Filling() && v.Conserved() && v.Committed() == []
    ensures v.sec == 0 && v.story == v.owed + v.text
  {
    hide Flatten;
    FlattenLength(v.ext[..v.sec]);
  }

  lemma SpliceRun(ss: seq<seq<byte>>, at: nat, s: seq<byte>, k: nat, n: nat)
    requires at + k + n <= |ss|
    ensures Splice(Splice(ss, at, Repeat(s, k)), at + k, Repeat(s, n)) == Splice(ss, at, Repeat(s, k + n))
  {
  }

  lemma OneMore(c: seq<byte>, at: nat, t: seq<byte>, b: byte)
    requires at + |t| < |c|
    ensures (c[..at] + t + c[at + |t|..])[at + |t| := b] == c[..at] + (t + [b]) + c[at + |t| + 1..]
  {
  }

  /** Sector `k` is one of the `count` sectors at `lba`. */
  predicate Covers(lba: nat, count: nat, k: nat) {
    lba <= k < lba + count
  }

  /** The file holds `base` and padding, and the current sector is where `base` ends. */
  predicate Opens(ext: seq<seq<byte>>, base: seq<byte>, sec: nat, fill: nat, cur: seq<byte>) {
    && Sectors(ext) && sec < |ext| && fill < SECTOR && |base| == SECTOR * sec + fill
    && Flatten(ext[..sec]) + ext[sec][..fill] == base
    && ext[sec] == ext[sec][..fill] + Pads(SECTOR - fill) && cur == ext[sec]
    && forall i :: sec < i < |ext| ==> ext[i] == Pads(SECTOR)
  }

  /** All spaces. */
  lemma PadSector(s: seq<byte>)
    requires |s| == SECTOR && IsPadding(s)
    ensures s == Pads(SECTOR)
  {
  }

  /** What `Locate` calls used covers every sector that holds text. */
  lemma UsedCovers(ext: seq<seq<byte>>, first: nat, used: nat)
    requires Sectors(ext) && PaddedFrom(ext, first)
    requires var t := Trim(Flatten(ext));
      used == |t| / SECTOR + (if |t| % SECTOR > 0 then 1 else 0) || used >= |ext|
    ensures first <= used
    ensures forall i :: used <= i < |ext| ==> ext[i] == Pads(SECTOR)
  {
    EndOfText(ext, first);
    forall i | used <= i < |ext| ensures ext[i] == Pads(SECTOR) {
      PadSector(ext[i]);
    }
  }

  lemma EmptyFile(ext: seq<seq<byte>>, first: nat)
    requires Sectors(ext) && ext != [] && PaddedFrom(ext, first) && Trim(Flatten(ext)) == []
    ensures Opens(ext, [], 0, 0, Pads(SECTOR))
  {
    EndOfText(ext, first);
    forall i | 0 <= i < |ext| ensures ext[i] == Pads(SECTOR) {
      PadSector(ext[i]);
    }
    AllPadding(ext);
  }

  lemma AllPadding(ext: seq<seq<byte>>)
    requires Sectors(ext) && ext != [] && forall i :: 0 <= i < |ext| ==> ext[i] == Pads(SECTOR)
    ensures Opens(ext, [], 0, 0, Pads(SECTOR))
  {
    assert ext[0][..0] == [] && ext[..0] == [];
  }

  /** Where the text ends is where the log goes on. */
  lemma OpensAtText(ext: seq<seq<byte>>, first: nat)
    requires Sectors(ext) && PaddedFrom(ext, first) && Trim(Flatten(ext)) != []
    requires |Trim(Flatten(ext))| / SECTOR < |ext|
    ensures var t := Trim(Flatten(ext)); var sec := |t| / SECTOR;
      Opens(ext, t, sec, |t| % SECTOR, ext[sec])
  {
    hide Flatten, Trim;
    var t := Trim(Flatten(ext));
    var sec, fill := |t| / SECTOR, |t| % SECTOR;
    EndOfText(ext, first);
    TrimExtent(ext, first);
    var s := ext[first - 1];
    var i := |Trim(s)|;
    forall j | first <= j < |ext| ensures ext[j] == Pads(SECTOR) {
      PadSector(ext[j]);
    }
    assert s == s[..i] + s[i..];
    if i == SECTOR {
      assert sec == first && fill == 0;
      assert ext[..first] == ext[..first - 1] + [s];
      FlattenSnoc(ext[..first - 1], s);
      assert Trim(s) == s;
      assert ext[sec][..0] == [];
    } else {
      assert sec == first - 1 && fill == i;
      assert s[i..] == Pads(SECTOR - i);
    }
  }

  /** The place is found: the current sector is what the card holds there, with the line ending `base` lacks. */
  predicate Settled(v: View, base: seq<byte>) {
    var at := |base| % SECTOR;
    && v.sec < |v.ext| && Opens(v.ext, base, v.sec, at, v.ext[v.sec]) && v.owed == Ending(base) && |v.cur| == SECTOR
    && v.fill == at + |v.owed| && v.dirty == (v.owed != [])
    && v.cur == v.ext[v.sec][..at] + v.owed + v.ext[v.sec][at + |v.owed|..]
  }

  lemma IsSettled(v: View, base: seq<byte>, c: seq<byte>, at: nat)
    requires Opens(v.ext, base, v.sec, at, c) && v.fill == at + |v.owed| && v.dirty == (v.owed != []) && |v.cur| == SECTOR
    requires at + |v.owed| <= |c| && v.cur == c[..at] + v.owed + c[at + |v.owed|..]
    requires v.owed == if base == [] || base[|base| - 1] == LF then [] else if at + 2 <= SECTOR then [CR, LF] else [LF]
    ensures Settled(v, base)
  {
    assert |base| % SECTOR == at;
  }

  /** The view just after opening. */
  lemma OpenedView(v: View, base: seq<byte>)
    requires Settled(v, base) && v.sec < |v.ext| - 1 && v.unc == 0 && v.story == base + v.owed + v.text
    ensures v.Placed() && v.Filling() && v.Conserved() && v.Committed() == base
  {
    hide Flatten;
    var at := |base| % SECTOR;
    var c := v.ext[v.sec];
    assert c[at + |v.owed|..] == Pads(SECTOR - v.fill);
    assert v.text[..0] == [];
    assert v.cur == c[..at] + v.owed + [] + Pads(SECTOR - v.fill);
  }

  /** Found text has no sector of padding, ends in text, and its line ending is dense. */
  lemma OpenedKnit(v: View, base: seq<byte>, ext: seq<seq<byte>>, first: nat)
    requires v.Filling() && v.Conserved() && v.Committed() == base && v.unc == 0 && v.owed == Ending(base)
    requires v.story == base + v.owed + v.text && Dense(v.text)
    requires base == [] || (Sectors(ext) && PaddedFrom(ext, first) && base == Trim(Flatten(ext)))
    ensures v.Knit()
  {
    if base != [] {
      KnitFound(ext, first);
    }
    DenseEnding(base);
    KnitDense(base, v.owed);
    KnitDense(base + v.owed, v.text);
    if v.Kept() > 0 {
      assert base[|base| - 1] == v.ext[v.sec][v.Kept() - 1];
    }
  }

  /** A place that is found makes a log that conserves, whose text begins with what was found. */
  lemma Opened(v: View, story: seq<byte>, base: seq<byte>, ext: seq<seq<byte>>, first: nat)
    requires Settled(v, base) && v.sec < |v.ext| - 1 && v.unc == 0 && story == base + v.owed + v.text
    requires base == [] || (Sectors(ext) && PaddedFrom(ext, first) && base == Trim(Flatten(ext)))
    ensures var w := v.(story := story);
      && w.Placed() && w.Filling() && w.Conserved() && w.Committed() == base && w.owed == Ending(base)
      && (Dense(w.text) ==> w.Knit())
  {
    hide Flatten, Trim, WellKnit, Dense, PaddedFrom, View.Filling, View.Conserved, View.Knit, View.Committed;
    var w := v.(story := story);
    OpenedView(w, base);
    if Dense(w.text) {
      OpenedKnit(w, base, ext, first);
    }
  }

  lemma DenseEnding(base: seq<byte>)
    ensures Dense(Ending(base))
  {
  }

  /** Text found in a file whose padding is a suffix is well knit. */
  lemma KnitFound(ext: seq<seq<byte>>, first: nat)
    requires Sectors(ext) && PaddedFrom(ext, first)
    ensures WellKnit(Trim(Flatten(ext)))
  {
    hide Flatten, Trim;
    var t := Trim(Flatten(ext));
    EndOfText(ext, first);
    forall k: nat | SECTOR * (k + 1) <= |t| ensures !IsPadding(Window(t, k)) {
      FlattenWindow(ext, k);
      assert Window(t, k) == Window(Flatten(ext), k);
    }
  }

  /** The line ending a cut text gets, as much of it as the sector has room for. */
  function Ending(base: seq<byte>): seq<byte> {
    if base == [] || base[|base| - 1] == LF then []
    else if |base| % SECTOR + 2 <= SECTOR then [CR, LF] else [LF]
  }

  method LastText(s: seq<byte>) returns (i: nat)
    ensures i == |Trim(s)|
  {
    i := |s|;
    assert s[..i] == s;
    while i > 0 && s[i - 1] == PAD
      invariant i <= |s| && Trim(s) == Trim(s[..i])
    {
      assert s[..i][..i - 1] == s[..i - 1];
      i := i - 1;
    }
  }

  lemma FillingMeans(v: View)
    requires v.Filling()
    ensures v.Placed() && v.unc <= |v.text| && v.dirty == (v.Kept() < v.fill)
  {
  }

  lemma SaidTwice(v: View, s: seq<byte>, t: seq<byte>)
    ensures v.Said(s).Said(t) == v.Said(s + t)
  {
    Assoc(v.text, s, t);
    Assoc(v.story, s, t);
  }

  lemma PlacedMeans(v: View)
    requires v.Placed()
    ensures v.fill <= SECTOR && v.sec < |v.ext|
  {
  }

  lemma NothingCopied(v: View)
    requires v.unc <= |v.text| && v.fill <= SECTOR && |v.cur| == SECTOR
    ensures v.Said([]).(cur := v.Copied(0)) == v
  {
  }

  /** The order of taking text and of saying more does not matter. */
  lemma TakenLate(v: View, s: seq<byte>)
    requires v.unc <= |v.text| && v.fill <= SECTOR && |v.cur| == SECTOR
    ensures var n := v.Takes();
      v.Take().Said(s) == v.Said(s).(cur := v.Copied(n), fill := v.fill + n, unc := v.unc + n, dirty := v.dirty || n > 0)
  {
  }

  lemma WrittenSaid(v: View, s: seq<byte>)
    requires v.sec < |v.ext|
    ensures var w := v.Said(s);
      && v.(ext := v.ext[v.sec := v.cur]).Said(s) == w.(ext := w.ext[w.sec := w.cur])
      && w.sec == v.sec && |w.ext| == |v.ext| && w.unc == v.unc && |w.text| >= |v.text|
  {
  }

  lemma TakenStory(v: View)
    requires v.unc <= |v.text| && v.fill <= SECTOR && |v.cur| == SECTOR
    ensures v.Take().story == v.story && v.Take().text == v.text && v.Take().ext == v.ext && v.Take().sec == v.sec
  {
  }

  /** Lines accepted before a sector is let go join what is left. */
  lemma SaidPut(v: View, s: seq<byte>, t: seq<byte>)
    requires v.unc <= |v.text| && v.sec < |v.ext|
    ensures v.Said(s).Said(t) == v.Said(s + t)
    ensures v.Said(s + t).Put() == v.Put().Said(s + t) && v.Said(s + t).PutFull() == v.PutFull().Said(s + t)
  {
    SaidTwice(v, s, t);
    assert (v.text + (s + t))[v.unc..] == v.text[v.unc..] + (s + t);
  }

  lemma SaidStopped(v: View, s: seq<byte>)
    requires v.Stopped() && v.Placed() && v.Conserved() && Chatter(s)
    ensures var w := v.Said(s);
      w.Stopped() && w.Placed() && w.Conserved() && w.Committed() == v.Committed() && (v.Knit() ==> w.Knit())
  {
    hide Flatten, WellKnit, Dense;
    SaidKeeps(v, s);
  }
}
