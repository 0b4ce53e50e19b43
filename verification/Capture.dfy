/** Three buffers that the video decoder fills in turn, rotated by a 1 kHz tick, and the watchdog that unsticks them. */
module Capture {
  const NBUF: nat := 3
  const WEDGE_TICKS: nat := 200
  const WEDGE_ESCALATE: nat := 3

  function Next(b: nat): (r: nat)
    ensures b < NBUF ==> r == if b == NBUF - 1 then 0 else b + 1
  {
    (b + 1) % NBUF
  }

  /** What the decoder does at one moment: it ends a frame, or it writes the buffer it is in, over sentinel rows or not. */
  datatype Act = FrameEnd(missed: bool) | Write(armLeft: bool, doneLeft: bool)

  /** What the decoder does between the statements of a tick. */
  datatype Meanwhile = Meanwhile(reset: seq<Act>, arm: seq<Act>, advance: seq<Act>)

  const QUIET: Meanwhile := Meanwhile([], [], [])

  class Ring {
    var wr: nat
    var done: int
    var safe: int
    var armed: bool
    var idle: nat
    var streak: nat
    var frames: nat
    var kicks: nat
    /** The decoder: the address it was given, the buffer it writes, and the sentinel rows that are still intact. */
    var reg: nat
    var cur: nat
    var armRow: seq<bool>
    var doneRow: seq<bool>
    /** The lines of a picture in the standard that is set, and those the decoder's registers are programmed for. */
    var lines: nat
    var programmed: nat
    /** Since the last rotation: the buffers written, and whether the address armed since was latched. */
    ghost var touched: set<int>
    ghost var nextLatched: bool
    /** Restarts since the last rotation. */
    ghost var fruitless: nat

    constructor ()
      ensures Valid() && frames == 0 && kicks == 0 && wr == cur == 0 && done == safe == -1 && !armed && programmed == lines == 480
    {
      wr, done, safe, armed, idle, streak, frames, kicks, fruitless := 0, -1, -1, false, 0, 0, 0, 0, 0;
      lines, programmed := 480, 480;
      reg, cur, armRow, doneRow := 0, 0, [true, true, true], [true, true, true];
      touched, nextLatched := {}, false;
    }

    /** Where the decoder can be, whatever it does between two statements of the tick. */
    ghost predicate Placed()
      reads this
    {
      && wr < NBUF && |armRow| == |doneRow| == NBUF && cur < NBUF
      && (done == -1 || done == Next(Next(wr))) && (safe == -1 || safe == Next(wr))
      && (reg == wr || (reg == Next(wr) && cur != Next(Next(wr))))
      && (cur == Next(wr) ==> nextLatched) && (nextLatched ==> reg == Next(wr) && cur == Next(wr))
      && (armed ==> reg == Next(wr))
      && (safe >= 0 && !nextLatched ==> safe !in touched)
    }

    /** A sentinel of the buffer being filled that is gone was overwritten by the decoder. */
    ghost predicate Marked()
      requires Placed()
      reads this
    {
      cur == Next(Next(wr)) ==> armRow[wr] && doneRow[wr]
    }

    ghost predicate Valid()
      reads this
    {
      && Placed() && Marked() && (!armed ==> reg == wr)
      && (lines == 480 || lines == 576) && idle < WEDGE_TICKS && streak < WEDGE_ESCALATE && streak == fruitless % WEDGE_ESCALATE
    }

    /**
     * The decoder is in the buffer handed out exactly when the address armed since the rotation has been latched,
     * which is the address of that buffer; until then it has not written there.
     */
    lemma SafeIsLeftAlone()
      requires Valid() && safe >= 0
      ensures (cur == safe <==> nextLatched) && (nextLatched ==> armed && reg == safe) && (!nextLatched ==> safe !in touched)
    {
    }

    /** One moment of the decoder: at a frame's end it latches the address it was given, or misses it. */
    method Moment(a: Act)
      requires Placed()
      modifies this`cur, this`armRow, this`doneRow, this`touched, this`nextLatched
      ensures Placed() && (old(Marked()) ==> Marked()) && (old(nextLatched) ==> nextLatched)
      ensures a.FrameEnd? ==>
        && cur == (if a.missed then old(cur) else reg) && armRow == old(armRow) && doneRow == old(doneRow)
        && touched == old(touched) && nextLatched == (old(nextLatched) || (!a.missed && reg == Next(wr)))
      ensures a.Write? ==>
        && cur == old(cur) && armRow == old(armRow)[cur := old(armRow[cur]) && a.armLeft]
        && doneRow == old(doneRow)[cur := old(doneRow[cur]) && a.doneLeft]
        && touched == old(touched) + {cur} && nextLatched == old(nextLatched)
    {
      hide Next;
      match a {
        case FrameEnd(missed) =>
          if !missed {
            cur := reg;
            nextLatched := nextLatched || cur == Next(wr);
          }
        case Write(armLeft, doneLeft) =>
          armRow, doneRow := armRow[cur := armRow[cur] && armLeft], doneRow[cur := doneRow[cur] && doneLeft];
          touched := touched + {cur};
      }
    }

    /** The decoder for a while. */
    method Decoder(run: seq<Act>)
      requires Placed()
      modifies this`cur, this`armRow, this`doneRow, this`touched, this`nextLatched
      ensures Placed() && (old(Marked()) ==> Marked()) && (old(nextLatched) ==> nextLatched)
      ensures run == [] ==> unchanged(`cur, `armRow, `doneRow, `touched, `nextLatched)
    {
      for i := 0 to |run|
        invariant Placed() && (old(Marked()) ==> Marked()) && (old(nextLatched) ==> nextLatched)
        invariant i == 0 ==> unchanged(`cur, `armRow, `doneRow, `touched, `nextLatched)
      {
        Moment(run[i]);
      }
    }

    /** The decoder's registers are lost, in a way that only programming them again can mend. */
    method Upset(mode: nat)
      requires Valid()
      modifies this`programmed
      ensures Valid() && programmed == mode
    {
      programmed := mode;
    }

    method Stamp(b: nat)
      requires b < NBUF == |armRow| == |doneRow|
      modifies this`armRow, this`doneRow
      ensures armRow == old(armRow)[b := true] && doneRow == old(doneRow)[b := true]
    {
      armRow, doneRow := armRow[b := true], doneRow[b := true];
    }

    /** Back to the first buffer. The decoder is stopped; it starts at the address it is given. */
    method Reset()
      requires |armRow| == |doneRow| == NBUF
      modifies this`wr, this`done, this`safe, this`armed, this`reg, this`cur, this`touched, this`nextLatched
      ensures wr == cur == reg == 0 && done == safe == -1 && !armed && !nextLatched && Placed() && Marked()
    {
      wr, done, safe, armed := 0, -1, -1, false;
      reg, cur := wr, wr;
      touched, nextLatched := {}, false;
    }

    /** Stamps before the decoder starts. */
    method Restart()
      requires Valid()
      modifies this`wr, this`done, this`safe, this`armed, this`reg, this`cur, this`touched, this`nextLatched, this`armRow, this`doneRow
      ensures Valid() && !armed && armRow[wr] && doneRow[wr] && wr == 0 && done == safe == -1
    {
      Reset();
      Stamp(wr);
    }

    /** Reprograms the decoder, which starts before the sentinels are stamped. */
    method SetStandard(pal: bool, run: seq<Act>)
      requires Valid()
      modifies this`wr, this`done, this`safe, this`armed, this`reg, this`cur, this`touched, this`nextLatched, this`armRow, this`doneRow
      modifies this`lines, this`programmed
      ensures Valid() && !armed && armRow[wr] && doneRow[wr] && wr == 0 && done == safe == -1
      ensures programmed == lines == if pal then 576 else 480
    {
      hide Next;
      lines := if pal then 576 else 480;
      Reset();
      programmed := lines;
      Decoder(run);
      Stamp(wr);
    }

    /** With lock but no rotation over 200 ticks the ring starts over; every third time in a row the decoder does too. */
    method Watchdog(locked: bool, run: seq<Act>)
      requires Valid()
      modifies this`wr, this`done, this`safe, this`armed, this`reg, this`cur, this`touched, this`nextLatched, this`armRow, this`doneRow
      modifies this`idle, this`kicks, this`streak, this`fruitless, this`lines, this`programmed
      ensures Valid() && frames == old(frames) && lines == old(lines)
      ensures var kicked := locked && old(idle) == 199;
        && kicks == old(kicks) + (if kicked then 1 else 0) && fruitless == old(fruitless) + (if kicked then 1 else 0)
        && idle == (if !locked || kicked then 0 else old(idle) + 1)
        && programmed == (if kicked && fruitless % 3 == 0 then lines else old(programmed))
        && (kicked ==> armRow[wr] && doneRow[wr] && !armed && wr == 0 && done == safe == -1)
        && (!kicked ==> unchanged(`wr, `done, `safe, `armed, `reg, `cur, `armRow, `doneRow, `touched, `nextLatched))
    {
      hide Next;
      if !locked {
        idle := 0;
        return;
      }
      idle := idle + 1;
      if idle < WEDGE_TICKS {
        return;
      }
      idle := 0;
      kicks, streak, fruitless := kicks + 1, streak + 1, fruitless + 1;
      if streak >= WEDGE_ESCALATE {
        streak := 0;
        SetStandard(lines == 576, run);
      } else {
        Restart();
      }
    }

    /** The address of the buffer to come is latched as soon as the row in question has been written. */
    method Arm(run: seq<Act>)
      requires Valid()
      modifies this`armed, this`reg, this`cur, this`armRow, this`doneRow, this`touched, this`nextLatched
      ensures Valid()
      ensures old(armed) || !old(armRow[wr]) ==> armed
      ensures run == [] ==> unchanged(`cur, `armRow, `doneRow, `touched, `nextLatched)
      ensures old(armed) || old(armRow[wr]) ==> armed == old(armed) && doneRow == old(doneRow)
    {
      if !armed && !armRow[wr] {
        reg := Next(wr);
        Decoder(run);
        armed := true;
      }
    }

    /** The buffer is complete: the next one is filled, and the one completed before it becomes safe to read. */
    method Advance(run: seq<Act>)
      requires Placed() && armed && !doneRow[wr] && Marked()
      modifies this`wr, this`done, this`safe, this`armed, this`cur, this`armRow, this`doneRow, this`touched, this`nextLatched
      ensures Placed() && Marked() && wr == Next(old(wr)) == reg && done == old(wr) && safe == old(done) && !armed && !nextLatched
      ensures run == [] ==>
        cur == old(cur) && touched == {} && armRow == old(armRow)[wr := true] && doneRow == old(doneRow)[wr := true]
    {
      hide Next;
      safe := done;
      done := wr;
      wr := Next(wr);
      touched, nextLatched := {}, false;
      armed := false;
      assert Placed();
      Decoder(run);
      assert cur != Next(wr);
      Stamp(wr);
    }

    method Rotate(run: seq<Act>)
      requires Valid() && armed && !doneRow[wr]
      modifies this`wr, this`done, this`safe, this`armed, this`cur, this`armRow, this`doneRow, this`touched, this`nextLatched
      modifies this`frames, this`idle, this`streak, this`fruitless
      ensures Valid() && wr == Next(old(wr)) && done == old(wr) && safe == old(done) && !armed && !nextLatched
      ensures frames == old(frames) + 1 && idle == 0 && fruitless == 0
      ensures run == [] ==>
        cur == old(cur) && touched == {} && armRow == old(armRow)[wr := true] && doneRow == old(doneRow)[wr := true]
    {
      hide Next;
      Advance(run);
      frames := frames + 1;
      idle := 0;
      streak, fruitless := 0, 0;
    }

    /**
     * The 1 kHz tick. A completed buffer rotates the ring, and the one completed a full cycle before is handed out:
     * the decoder has left it and will not come back before the address armed next is latched.
     */
    method Tick(locked: bool, m: Meanwhile) returns (available: bool)
      requires Valid()
      modifies this
      ensures Valid()
      ensures available <==> frames > old(frames) && safe >= 0
      ensures available ==> !nextLatched && safe !in touched && cur != safe
      ensures frames > old(frames) ==> frames == old(frames) + 1 && wr == Next(old(wr)) && done == old(wr) && safe == old(done)
      ensures frames > old(frames) ==> kicks == old(kicks) && idle == 0 && fruitless == 0
      ensures frames == old(frames) && kicks == old(kicks) ==> wr == old(wr) && done == old(done) && safe == old(safe)
      ensures old(armed && !doneRow[wr]) && kicks == old(kicks) ==> frames > old(frames)
      ensures frames >= old(frames)
      ensures kicks == old(kicks) + (if locked && old(idle) == 199 then 1 else 0)
      ensures locked ==> WEDGE_TICKS * (frames + kicks) + idle >= WEDGE_TICKS * old(frames + kicks) + old(idle) + 1
      ensures kicks > old(kicks) ==>
        fruitless == old(fruitless) + 1 && programmed == (if fruitless % 3 == 0 then lines else old(programmed))
      ensures frames == old(frames) && kicks == old(kicks) ==> fruitless == old(fruitless)
      ensures lines == old(lines) && (kicks == old(kicks) ==> programmed == old(programmed))
      ensures m == QUIET && kicks == old(kicks) ==> Undisturbed()
    {
      Watchdog(locked, m.reset);
      Arm(m.arm);
      available := false;
      if armed && !doneRow[wr] {
        Rotate(m.advance);
        available := safe >= 0;
      }
    }

    /** A tick during which the decoder does nothing, and which the watchdog lets pass. */
    twostate predicate Undisturbed()
      requires old(Valid()) && Valid()
      reads this
    {
      var arms := old(armed) || !old(armRow[wr]);
      && cur == old(cur)
      && if arms && !old(doneRow[wr]) then
           && frames == old(frames) + 1 && wr == Next(old(wr)) && done == old(wr) && safe == old(done) && !armed
           && touched == {} && armRow == old(armRow)[wr := true] && doneRow == old(doneRow)[wr := true]
         else
           && frames == old(frames) && wr == old(wr) && done == old(done) && safe == old(safe) && armed == arms
           && touched == old(touched) && armRow == old(armRow) && doneRow == old(doneRow)
    }

    /**
     * However long the signal stays locked: every 200 ticks complete a frame or restart the ring, and 600 without a
     * frame leave the decoder programmed anew, whatever had become of its registers.
     */
    method Locked(ticks: nat)
      requires Valid()
      modifies this
      ensures Valid() && frames + kicks >= old(frames + kicks) + ticks / 200
      ensures frames == old(frames) && ticks >= 600 ==> programmed == lines
    {
      for i := 0 to ticks
        invariant Valid() && WEDGE_TICKS * (frames + kicks) + idle >= WEDGE_TICKS * old(frames + kicks) + old(idle) + i
        invariant frames >= old(frames)
        invariant frames == old(frames) ==> fruitless - old(fruitless) == kicks - old(kicks) >= 0
        invariant frames == old(frames) && fruitless / 3 > old(fruitless) / 3 ==> programmed == lines
      {
        var run: seq<Act>, m: Meanwhile := *, *;
        Decoder(run);
        var available := Tick(true, m);
      }
    }
  }

  /** A frame in which the decoder overwrites both sentinel rows of the buffer it fills. */
  method WholeFrame(r: Ring) returns (available: bool)
    requires r.Valid() && r.cur == r.wr && !r.armed
    modifies r
    ensures r.Valid() && r.frames == old(r.frames) + 1 && r.wr == Next(old(r.wr)) == r.cur && !r.armed
    ensures r.done == old(r.wr) && r.safe == old(r.done) && r.touched == {} && r.armRow[r.wr] && r.doneRow[r.wr]
  {
    r.Moment(Write(false, false));
    available := r.Tick(false, QUIET);
    r.Moment(FrameEnd(false));
  }

  /**
   * Less than two frames: in an ordinary run, with no signal lost and no latch missed, the decoder writes the buffer
   * it handed out with the second frame before a third one is handed out.
   */
  method SafeIsOverwritten() returns (r: Ring)
    ensures fresh(r) && r.Valid() && r.frames == 2 && r.safe == 0 && r.cur == r.safe && r.safe in r.touched
  {
    r := new Ring();
    var available := WholeFrame(r);
    available := WholeFrame(r);
    r.Moment(Write(false, true));
    available := r.Tick(false, QUIET);
    r.Moment(Write(false, false));
    r.Moment(FrameEnd(false));
    r.Moment(Write(true, true));
  }
}
