/** Frames on their way from the encoder, driven by a 1 kHz interrupt, to the main loop, through a ring of slots. */
module Pipeline {
  import opened Bytes

  const SLOTS: nat := 40
  const SLOT_SIZE: nat := 0x4_0000
  const RING_BASE: nat := 0x8280_0000
  /** Every so many ticks the input standard is followed. */
  const FOLLOW_TICKS: nat := 20

  /** A frame as the encoder made it: what it wrote, how much of it, and of how many lines. */
  datatype Frame = Frame(bits: seq<byte>, len: nat, height: nat)

  /** What is left when 2^32, where the counters wrap, is divided by the ring's length. */
  const LEFT_OVER: nat := 16

  function SlotBase(i: u32): nat {
    RING_BASE + i % SLOTS * SLOT_SIZE
  }

  function SlotIndex(base: nat): (i: nat)
    requires base >= RING_BASE
    ensures i < SLOTS
  {
    (base - RING_BASE) / SLOT_SIZE % SLOTS
  }

  /** The height is looked up by the slot's address, which names the slot. */
  lemma SlotOfBase(i: u32)
    ensures SlotIndex(SlotBase(i)) == i % SLOTS
  {
    assert i % SLOTS * SLOT_SIZE / SLOT_SIZE == i % SLOTS;
  }

  /** The slot of the `i`th frame ever made. */
  function Where(i: nat): (s: nat)
    ensures s < SLOTS
  {
    i % TWO_32 % SLOTS
  }

  /** Two frames within a ring's length share a slot just when they are 16 apart and the counter wraps between them. */
  lemma SlotsCoincide(i: nat, j: nat)
    requires i < j < i + SLOTS
    ensures Where(i) == Where(j) <==> i / TWO_32 < j / TWO_32 && j - i == LEFT_OVER
  {
    var a, b := i % TWO_32, j % TWO_32;
    assert i == i / TWO_32 * TWO_32 + a && j == j / TWO_32 * TWO_32 + b;
    if i / TWO_32 == j / TWO_32 {
      Apart(a, b, 0);
    } else {
      assert j / TWO_32 == i / TWO_32 + 1 && b + TWO_32 == a + (j - i);
      Apart(a, b + TWO_32, LEFT_OVER);
    }
  }

  /** Shifted by what is left over, the later of two numbers leaves the same remainder just if they are that far apart. */
  lemma Apart(a: nat, b: nat, over: nat)
    requires a < b < a + SLOTS && over <= b && over < SLOTS
    ensures a % SLOTS == (b - over) % SLOTS <==> b - a == over
  {
  }

  /** The pair of counters on either side of the wrap: sixteen frames wait, and the next one has the oldest one's slot. */
  lemma CounterWrapSharesASlot()
    ensures Where(TWO_32 - LEFT_OVER) == Where(TWO_32)
  {
    SlotsCoincide(TWO_32 - LEFT_OVER, TWO_32);
  }

  lemma Wraps(i: nat, j: nat)
    requires i < j
    ensures j - i == LEFT_OVER ==> (i / TWO_32 < j / TWO_32 <==> j % TWO_32 < LEFT_OVER)
    ensures j - i == LEFT_OVER && j % TWO_32 < LEFT_OVER ==> i % TWO_32 >= TWO_32 - LEFT_OVER
  {
    assert i == i / TWO_32 * TWO_32 + i % TWO_32 && j == j / TWO_32 * TWO_32 + j % TWO_32;
  }

  /** What a caller can see of a collision before it starts a frame: the counter, and how many frames wait. */
  predicate Clash(head: u32, depth: int) {
    head < LEFT_OVER && depth >= LEFT_OVER
  }

  /** With `q` frames consumed and `p` published, the next frame's slot is free unless they clash. */
  lemma ClashIff(q: nat, p: nat)
    requires q <= p < q + SLOTS
    ensures (exists i :: q <= i < p && Where(i) == Where(p)) <==> Clash(p % TWO_32, p - q)
    ensures forall i :: q <= i < p && Where(i) == Where(p) ==> i == p - LEFT_OVER && i % TWO_32 >= TWO_32 - LEFT_OVER
  {
    hide Where;
    forall i | q <= i < p ensures Where(i) == Where(p) <==> i == p - LEFT_OVER && p % TWO_32 < LEFT_OVER {
      SlotsCoincide(i, p);
      Wraps(i, p);
    }
    if p - q >= LEFT_OVER {
      Wraps(p - LEFT_OVER, p);
      assert Where(p - LEFT_OVER) == Where(p) <==> p % TWO_32 < LEFT_OVER;
    }
  }

  /** What the engine says when it is asked. */
  datatype Poll = Busy | Failed | Encoded(bits: seq<byte>, len: nat)

  /** What one tick finds: the capture, the engine, the clock and the geometry wanted. */
  datatype Found = Found(
    captured: bool, signal: bool, prev: int, skip: bool,
    poll: Poll, late: bool,
    height: nat, usbMode: bool, usbHeight: nat)
  {
    /** The height the next frame is encoded at: the input's, or what a USB host was promised. */
    function OutHeight(): nat {
      if usbMode then usbHeight else height
    }

    /** The encode in flight is over, as a frame, an error or a timeout. */
    predicate Settles() {
      poll != Busy || late
    }

    /** How many lines at the top of the picture are left out, which is half of what is too much. */
    function Top(): nat {
      if OutHeight() < height then (height - OutHeight()) / 2 else 0
    }
  }

  /** What the first interrupt that settles an encode makes of it. */
  function Settled(found: seq<Found>, height: nat): (r: seq<Frame>)
    ensures (forall f :: f in found ==> !f.Settles()) ==> r == []
  {
    if found == [] then []
    else if !found[0].Settles() then Settled(found[1..], height)
    else if found[0].poll.Encoded? then [Frame(found[0].poll.bits, found[0].poll.len, height)]
    else []
  }

  class Ring {
    var on: bool
    var frozen: bool
    var head: u32
    var tail: u32
    const slotLen: array<nat>
    const slotHeight: array<nat>
    var encHeight: nat
    var encBusy: bool
    var encPending: int
    var encFrames: nat
    var encFails: nat
    var encAborts: nat
    var ringDrops: nat
    var hiwater: nat
    var followDiv: nat
    /** The memory of the slots, where and how the engine is writing it, and which picture it reads from which line on. */
    const memory: array<seq<byte>>
    var engineSlot: nat
    var engineHeight: nat
    var enginePicture: int
    var engineTop: nat
    /** Every frame published, and every frame the consumers were given. */
    ghost var published: seq<Frame>
    ghost var consumed: seq<Frame>
    /** The frames, by number, that were not consumed yet when another one was started in their slot. */
    ghost var lost: set<int>

    constructor ()
      ensures Valid() && fresh(slotLen) && fresh(slotHeight) && fresh(memory)
      ensures !on && !frozen && !encBusy && encPending == -1 && published == [] && consumed == [] && lost == {}
    {
      slotLen, slotHeight, memory := new nat[SLOTS], new nat[SLOTS], new seq<byte>[SLOTS](_ => []);
      on, frozen, head, tail, encHeight, encBusy, encPending, followDiv := false, false, 0, 0, 0, false, -1, 0;
      encFrames, encFails, encAborts, ringDrops, hiwater := 0, 0, 0, 0, 0;
      engineSlot, engineHeight, enginePicture, engineTop := 0, 0, -1, 0;
      published, consumed, lost := [], [], {};
    }

    /** The counters are the numbers of frames, as far as 32 bits show them. */
    ghost predicate Shape()
      reads this
    {
      && slotLen.Length == slotHeight.Length == memory.Length == SLOTS && slotLen != slotHeight
      && head == |published| % TWO_32 && tail == |consumed| % TWO_32
      && |consumed| <= |published| <= |consumed| + SLOTS && engineSlot < SLOTS
    }

    /** What the slot of frame `i` holds. */
    function Slot(i: nat): Frame
      requires slotLen.Length == slotHeight.Length == memory.Length == SLOTS
      reads this, slotLen, slotHeight, memory
    {
      Frame(memory[Where(i)], slotLen[Where(i)], slotHeight[Where(i)])
    }

    ghost predicate Unread(i: int)
      reads this
    {
      |consumed| <= i < |published| && i !in lost
    }

    /**
     * The unread slots hold the frames published and not consumed yet, oldest first, and the slot the engine
     * writes is none of them, the one being read included. Frames are lost only among the last before a wrap.
     */
    ghost predicate Valid()
      reads this, slotLen, slotHeight, memory
    {
      && Shape()
      && (forall i :: 0 <= i < |consumed| && i !in lost ==> consumed[i] == published[i])
      && (forall i: nat :: Unread(i) ==> Slot(i) == published[i])
      && (encBusy ==> |published| < |consumed| + SLOTS && engineSlot == Where(|published|) && engineHeight == encHeight)
      && (encBusy ==> forall i: nat :: Unread(i) ==> Where(i) != engineSlot)
      && (forall i :: i in lost ==> i < |published| && i % TWO_32 >= TWO_32 - LEFT_OVER)
    }

    /** The ring is a queue: what was consumed is what was published, in order, but for sixteen frames in 2^32. */
    lemma ConsumedInOrder()
      requires Valid()
      ensures |consumed| <= |published|
      ensures forall i :: 0 <= i < |consumed| && i % TWO_32 < TWO_32 - LEFT_OVER ==> consumed[i] == published[i]
      ensures |consumed| <= TWO_32 - LEFT_OVER ==> consumed == published[..|consumed|]
    {
      forall i | 0 <= i < |consumed| && i % TWO_32 < TWO_32 - LEFT_OVER ensures consumed[i] == published[i] {
        assert i !in lost;
      }
      if |consumed| <= TWO_32 - LEFT_OVER {
        forall i | 0 <= i < |consumed| ensures consumed[i] == published[i] {
          assert i % TWO_32 == i;
        }
      }
    }

    /** The slot the engine writes while it encodes is shared with an unread frame just if the two had clashed. */
    lemma EngineSlotIsFree()
      requires Valid() && encBusy
      ensures (exists i :: |consumed| <= i < |published| && Where(i) == engineSlot) <==> Clash(head, |published| - |consumed|)
    {
      ClashIff(|consumed|, |published|);
    }

    lemma Depth()
      requires Shape()
      ensures (head - tail) % TWO_32 == |published| - |consumed|
      ensures tail == head <==> |published| == |consumed|
    {
      var p, q := |published|, |consumed|;
      assert p - q == (head - tail) + TWO_32 * (p / TWO_32 - q / TWO_32);
    }

    method Toggle()
      requires Valid()
      modifies this`on
      ensures Valid() && on == !old(on)
    {
      on := !on;
    }

    /** The engine may write anything into its slot while it runs. */
    method EngineRuns()
      requires Valid()
      modifies memory
      ensures Valid() && (!encBusy ==> memory[..] == old(memory[..]))
    {
      if encBusy {
        var junk: seq<byte> := *;
        memory[engineSlot] := junk;
      }
    }

    /** The encode is over: a frame is published once its length and height are in place. */
    method Settle(f: Found)
      requires Valid() && encBusy
      modifies this`head, this`encBusy, this`encFrames, this`encFails, this`encAborts, this`published, slotLen, slotHeight, memory
      ensures Valid()
      ensures published == old(published) + if f.poll.Encoded? then [Frame(f.poll.bits, f.poll.len, engineHeight)] else []
      ensures encBusy == (f.poll == Busy && !f.late)
      ensures encFrames == old(encFrames) + if f.poll.Encoded? then 1 else 0
      ensures encFails == old(encFails) + if f.poll == Failed || (f.poll == Busy && f.late) then 1 else 0
      ensures encAborts == old(encAborts) + if f.poll == Busy && f.late then 1 else 0
    {
      if f.poll.Encoded? {
        Publish(f.poll.bits, f.poll.len);
        encFrames := encFrames + 1;
      } else if f.poll == Failed {
        encBusy := false;
        encFails := encFails + 1;
      } else if f.late {
        encBusy := false;
        encFails, encAborts := encFails + 1, encAborts + 1;
      }
    }

    method Publish(bits: seq<byte>, len: nat)
      requires Valid() && encBusy
      modifies this`head, this`encBusy, this`published, slotLen, slotHeight, memory
      ensures Valid() && !encBusy && published == old(published) + [Frame(bits, len, engineHeight)]
    {
      ghost var p := |published|;
      assert head % SLOTS == engineSlot;
      memory[engineSlot] := bits;
      slotLen[head % SLOTS] := len;
      slotHeight[head % SLOTS] := encHeight;
      published := published + [Frame(bits, len, engineHeight)];
      head := if head + 1 == TWO_32 then 0 else head + 1;
      encBusy := false;
      assert head == |published| % TWO_32 by {
        Successor(p);
      }
    }

    static lemma Successor(n: nat)
      ensures (n + 1) % TWO_32 == if n % TWO_32 + 1 == TWO_32 then 0 else n % TWO_32 + 1
    {
    }

    /** The 1 kHz interrupt. */
    method Tick(f: Found) returns (follow: bool)
      requires Valid()
      modifies this`head, this`encBusy, this`encPending, this`encHeight, this`engineSlot, this`engineHeight, this`enginePicture, this`engineTop, this`published
      modifies this`encFrames, this`encFails, this`encAborts, this`ringDrops, this`hiwater, this`followDiv, this`lost
      modifies slotLen, slotHeight, memory
      ensures Valid()
      ensures published == old(published)
        + if on && old(encBusy) && f.poll.Encoded? then [Frame(f.poll.bits, f.poll.len, old(engineHeight))] else []
      ensures !on ==> encBusy == old(encBusy) && encPending == old(encPending) && lost == old(lost)
      ensures var running := old(encBusy) && f.poll == Busy && !f.late;
        var wanted := if !f.captured then old(encPending) else if f.signal && !f.skip then f.prev else -1;
        on ==> Started(f, running, wanted, old(ringDrops), old(lost)) && hiwater == High(old(hiwater))
      ensures on && old(encBusy) ==> encFrames == old(encFrames) + if f.poll.Encoded? then 1 else 0
      ensures on && old(encBusy) ==> encFails == old(encFails) + if f.poll == Failed || (f.poll == Busy && f.late) then 1 else 0
      ensures on && old(encBusy) ==> encAborts == old(encAborts) + if f.poll == Busy && f.late then 1 else 0
      ensures !on || !old(encBusy) ==> encFrames == old(encFrames) && encFails == old(encFails) && encAborts == old(encAborts)
      ensures frozen && !old(encBusy) ==> memory[..] == old(memory[..])
      ensures frozen || !on ==> engineHeight == old(engineHeight)
      ensures follow == (on && old(followDiv) + 1 >= FOLLOW_TICKS)
      ensures followDiv == if follow then 0 else if on then old(followDiv) + 1 else old(followDiv)
    {
      hide Where, Clash;
      EngineRuns();
      follow := false;
      if on {
        Work(f);
        follow := CountTick();
      }
    }

    /** The input standard is followed with or without a signal. */
    method CountTick() returns (follow: bool)
      modifies this`followDiv
      ensures follow == (old(followDiv) + 1 >= FOLLOW_TICKS)
      ensures followDiv == if follow then 0 else old(followDiv) + 1
    {
      followDiv := followDiv + 1;
      follow := followDiv >= FOLLOW_TICKS;
      if follow {
        followDiv := 0;
      }
    }

    method Work(f: Found)
      requires Valid()
      modifies this`head, this`encBusy, this`encPending, this`encHeight, this`engineSlot, this`engineHeight, this`enginePicture, this`engineTop, this`published
      modifies this`encFrames, this`encFails, this`encAborts, this`ringDrops, this`hiwater, this`lost
      modifies slotLen, slotHeight, memory
      ensures Valid()
      ensures published == old(published)
        + if old(encBusy) && f.poll.Encoded? then [Frame(f.poll.bits, f.poll.len, old(engineHeight))] else []
      ensures var running := old(encBusy) && f.poll == Busy && !f.late;
        var wanted := if !f.captured then old(encPending) else if f.signal && !f.skip then f.prev else -1;
        Started(f, running, wanted, old(ringDrops), old(lost)) && hiwater == High(old(hiwater))
      ensures old(encBusy) ==> encFrames == old(encFrames) + if f.poll.Encoded? then 1 else 0
      ensures old(encBusy) ==> encFails == old(encFails) + if f.poll == Failed || (f.poll == Busy && f.late) then 1 else 0
      ensures old(encBusy) ==> encAborts == old(encAborts) + if f.poll == Busy && f.late then 1 else 0
      ensures !old(encBusy) ==> encFrames == old(encFrames) && encFails == old(encFails) && encAborts == old(encAborts)
      ensures !old(encBusy) ==> memory[..] == old(memory[..])
      ensures frozen ==> engineHeight == old(engineHeight)
    {
      TakeCapture(f);
      if encBusy {
        Settle(f);
      }
      StartNext(f);
    }

    /** Only pictures of a locked input go on to the encoder. */
    method TakeCapture(f: Found)
      modifies this`encPending
      ensures encPending == if !f.captured then old(encPending) else if f.signal && !f.skip then f.prev else -1
    {
      if f.captured {
        encPending := if f.signal then f.prev else -1;
        if f.skip {
          encPending := -1;
        }
      }
    }

    method StartNext(f: Found)
      requires Valid()
      modifies this`encBusy, this`encPending, this`encHeight, this`engineSlot, this`engineHeight, this`enginePicture, this`engineTop, this`ringDrops, this`hiwater
      modifies this`lost
      ensures Valid() && Started(f, old(encBusy), old(encPending), old(ringDrops), old(lost)) && hiwater == High(old(hiwater))
      ensures frozen ==> engineHeight == old(engineHeight)
    {
      Depth();
      var depth := (head - tail) % TWO_32;
      if depth > hiwater {
        hiwater := depth;
      }
      if !encBusy && !frozen && encPending >= 0 {
        StartOrDrop(f, depth);
      }
    }

    /**
     * How a tick leaves the frame it wants encoded: waiting, dropped because the ring is full, or in the engine; and
     * when that costs an unread frame.
     */
    ghost predicate Started(f: Found, running: bool, wanted: int, drops: nat, before: set<int>)
      reads this
    {
      if running || frozen || wanted < 0 then encBusy == running && encPending == wanted && ringDrops == drops && lost == before
      else if |published| - |consumed| >= SLOTS then !encBusy && encPending == -1 && ringDrops == drops + 1 && lost == before
      else encBusy && encPending == -1 && ringDrops == drops && Encodes(f, wanted) && Overwrites(before)
    }

    /** The engine works on a picture, at the height a USB host was promised and on its middle lines, or at its own. */
    ghost predicate Encodes(f: Found, picture: int)
      reads this
    {
      && enginePicture == picture && (f.usbMode ==> engineHeight == f.usbHeight) && (!f.usbMode ==> engineHeight == f.height)
      && (engineHeight >= f.height ==> engineTop == 0)
      && (engineHeight < f.height ==> f.height - engineHeight - 1 <= 2 * engineTop <= f.height - engineHeight)
    }

    ghost function High(before: nat): int
      reads this
    {
      if |published| - |consumed| > before then |published| - |consumed| else before
    }

    ghost predicate Overwrites(before: set<int>)
      reads this
    {
      lost == before + if Clash(head, |published| - |consumed|) then {|published| - LEFT_OVER} else {}
    }

    method StartOrDrop(f: Found, depth: nat)
      requires Valid() && !encBusy && !frozen && encPending >= 0 && depth == |published| - |consumed|
      modifies this`encBusy, this`encPending, this`encHeight, this`engineSlot, this`engineHeight, this`enginePicture, this`engineTop, this`ringDrops, this`lost
      ensures Valid() && Started(f, false, old(encPending), old(ringDrops), old(lost)) && hiwater == old(hiwater)
    {
      if depth >= SLOTS {
        ringDrops := ringDrops + 1;
        encPending := -1;
      } else {
        Begin(f.OutHeight(), encPending, f.Top());
        encPending := -1;
      }
    }

    method Begin(height: nat, picture: int, top: nat)
      requires Valid() && !encBusy && |published| < |consumed| + SLOTS
      modifies this`encBusy, this`encHeight, this`engineSlot, this`engineHeight, this`enginePicture, this`engineTop, this`lost
      ensures Valid() && encBusy && engineHeight == height && enginePicture == picture && engineTop == top && Overwrites(old(lost))
    {
      hide Where;
      NextSlot();
      encHeight := height;
      engineSlot, engineHeight, enginePicture, engineTop := SlotIndex(SlotBase(head)), height, picture, top;
      if Clash(head, |published| - |consumed|) {
        lost := lost + {|published| - LEFT_OVER};
      }
      encBusy := true;
    }

    /** Where the next frame goes, and which unread one is there already. */
    lemma NextSlot()
      requires Shape() && |published| < |consumed| + SLOTS
      ensures SlotIndex(SlotBase(head)) == Where(|published|)
      ensures Clash(head, |published| - |consumed|) ==> (|published| - LEFT_OVER) % TWO_32 >= TWO_32 - LEFT_OVER
      ensures forall i: nat :: |consumed| <= i < |published| && Where(i) == Where(|published|) ==>
        i == |published| - LEFT_OVER && Clash(head, |published| - |consumed|)
    {
      ClashIff(|consumed|, |published|);
      SlotOfBase(head);
    }

    /** Any number of interrupts, each finding anything. */
    method Interrupts()
      requires Valid()
      modifies this`head, this`encBusy, this`encPending, this`encHeight, this`engineSlot, this`engineHeight, this`enginePicture, this`engineTop, this`published
      modifies this`encFrames, this`encFails, this`encAborts, this`ringDrops, this`hiwater, this`followDiv, this`lost
      modifies slotLen, slotHeight, memory
      ensures Valid() && old(published) <= published && old(lost) <= lost
      ensures frozen && !old(encBusy) ==> Still(old(published), old(lost), old(memory[..])) && !encBusy
    {
      var n: nat := *;
      while n > 0
        invariant Valid() && old(published) <= published && old(lost) <= lost
        invariant frozen && !old(encBusy) ==> Still(old(published), old(lost), old(memory[..])) && !encBusy
      {
        var f: Found := *;
        var _ := Tick(f);
        n := n - 1;
      }
    }

    /** Nothing was published, lost or written. */
    ghost predicate Still(frames: seq<Frame>, gone: set<int>, slots: seq<seq<byte>>)
      reads this, memory
    {
      published == frames && lost == gone && memory[..] == slots
    }

    /**
     * While the ring is frozen no encode is started; the one in flight is waited for, through the interrupts `found`.
     * The wait is over just if nothing was in flight, or the ring is on and an interrupt finds the encode settled.
     */
    method Freeze(f: bool, found: seq<Found>)
      requires Valid()
      modifies this`frozen
      modifies this`head, this`encBusy, this`encPending, this`encHeight, this`engineSlot, this`engineHeight, this`enginePicture, this`engineTop, this`published
      modifies this`encFrames, this`encFails, this`encAborts, this`ringDrops, this`hiwater, this`followDiv, this`lost
      modifies slotLen, slotHeight, memory
      ensures Valid() && frozen == f && lost == old(lost)
      ensures !f || !old(encBusy) ==> Still(old(published), old(lost), old(memory[..])) && encBusy == old(encBusy)
      ensures f ==> (!encBusy <==> !old(encBusy) || (on && exists k :: 0 <= k < |found| && found[k].Settles()))
      ensures f ==> published == old(published) + if on && old(encBusy) then Settled(found, old(engineHeight)) else []
    {
      frozen := f;
      if f {
        var n := 0;
        while encBusy && n < |found|
          invariant n <= |found| && Valid() && frozen == f && lost == old(lost)
          invariant !old(encBusy) ==> !encBusy && Still(old(published), old(lost), old(memory[..]))
          invariant !on ==> encBusy == old(encBusy) && published == old(published)
          invariant encBusy ==> engineHeight == old(engineHeight) && published == old(published)
          invariant encBusy && on ==> Settled(found, engineHeight) == Settled(found[n..], engineHeight)
          invariant encBusy && on ==> forall k :: 0 <= k < n ==> !found[k].Settles()
          invariant !encBusy && old(encBusy) ==> exists k :: 0 <= k < |found| && found[k].Settles()
          invariant !encBusy && old(encBusy) ==> published == old(published) + Settled(found, old(engineHeight))
        {
          assert found[n..][0] == found[n] && found[n..][1..] == found[n + 1..];
          var _ := Tick(found[n]);
          n := n + 1;
        }
      }
    }

    /** Switched on, with nothing in the engine and nothing waiting for it. */
    predicate Ready()
      reads this
    {
      on && !frozen && !encBusy && encPending == -1
    }

    /** What a consumer finds at the tail while no interrupt comes. */
    method Oldest() returns (given: Frame)
      requires Valid() && |consumed| < |published|
      ensures given == Slot(|consumed|)
    {
      OldestSlot();
      given := Frame(memory[tail % SLOTS], slotLen[tail % SLOTS], slotHeight[tail % SLOTS]);
    }

    lemma OldestSlot()
      requires Shape()
      ensures SlotIndex(SlotBase(tail)) == tail % SLOTS == Where(|consumed|)
    {
      SlotOfBase(tail);
    }

    /** One frame for the recorder and the USB host: its slot is theirs until the tail moves on. */
    method ConsumeOne() returns (given: Frame)
      requires Valid() && |consumed| < |published|
      modifies this, slotLen, slotHeight, memory
      ensures Valid() && old(published) <= published && old(lost) <= lost && consumed == old(consumed) + [given]
      ensures |old(consumed)| !in lost ==> given == old(published)[|old(consumed)|]
    {
      hide Where, Still, Clash;
      ghost var q := |consumed|;
      var i := tail % SLOTS;
      OldestSlot();
      Interrupts();
      var base, len := SlotBase(tail), slotLen[i];
      Interrupts();
      var height := slotHeight[SlotIndex(base)];
      Interrupts();
      var bits := memory[SlotIndex(base)];
      Interrupts();
      given := Frame(bits, len, height);
      assert Unread(q) ==> given == published[q];
      Release(given);
    }

    /** The slot goes back to the ring. */
    method Release(given: Frame)
      requires Valid() && |consumed| < |published| && (Unread(|consumed|) ==> given == published[|consumed|])
      modifies this`tail, this`consumed
      ensures Valid() && consumed == old(consumed) + [given]
    {
      hide Where, Clash;
      Successor(|consumed|);
      consumed := consumed + [given];
      tail := if tail + 1 == TWO_32 then 0 else tail + 1;
    }

    /** The main loop's turn. `most` bounds how many frames this run of it is followed for. */
    method Consume(most: nat)
      requires Valid()
      modifies this, slotLen, slotHeight, memory
      ensures Valid() && old(published) <= published && old(consumed) <= consumed && old(lost) <= lost
      ensures |consumed| == |published| || |consumed| == |old(consumed)| + most
    {
      var n := 0;
      Depth();
      while tail != head && n < most
        invariant Valid() && old(published) <= published && old(consumed) <= consumed && old(lost) <= lost
        invariant |consumed| == |old(consumed)| + n && n <= most
        invariant tail == head <==> |published| == |consumed|
        decreases most - n
      {
        var _ := ConsumeOne();
        n := n + 1;
        Depth();
      }
    }
  }

  /** A picture of the locked input is complete, and the engine has nothing to say. */
  const PICTURE: Found := Found(true, true, 0, false, Busy, false, 480, false, 480)

  function Done(bits: seq<byte>): Found {
    Found(false, true, 0, false, Encoded(bits, |bits|), false, 480, false, 480)
  }

  /** Switched off with an encode in flight: whatever the interrupts would find, the wait goes on. */
  method FreezeWaitsForEver(found: seq<Found>) returns (r: Ring)
    ensures fresh(r) && r.Valid() && !r.on && r.frozen && r.encBusy
  {
    r := new Ring();
    r.Toggle();
    var _ := r.Tick(PICTURE);
    r.Toggle();
    r.Freeze(true, found);
  }

  /** Two ticks make a frame. */
  method MakeFrame(r: Ring, bits: seq<byte>)
    requires r.Valid() && r.Ready() && |r.published| < |r.consumed| + SLOTS
    modifies r, r.slotLen, r.slotHeight, r.memory
    ensures r.Valid() && r.Ready() && r.consumed == old(r.consumed)
    ensures r.published == old(r.published) + [Frame(bits, |bits|, 480)]
    ensures r.lost == old(r.lost)
      + if Clash(old(r.head), |old(r.published)| - |r.consumed|) then {|old(r.published)| - LEFT_OVER} else {}
  {
    hide Where, Clash;
    var _ := r.Tick(PICTURE);
    var _ := r.Tick(Done(bits));
  }

  /**
   * A run into the wrap: 2^32 - 16 frames are made and consumed, 16 more are made, and the next one takes the slot
   * of the oldest of these. The consumer is going to find the new frame where the old one was.
   */
  method WrapLosesAFrame() returns (r: Ring)
    ensures fresh(r) && r.Valid() && r.lost == {TWO_32 - LEFT_OVER} && |r.consumed| == TWO_32 - LEFT_OVER
    ensures |r.published| == TWO_32 + 1 && r.published[TWO_32 - LEFT_OVER] == Frame([], 0, 480)
    ensures r.Slot(|r.consumed|) == r.published[TWO_32] == Frame([1], 1, 480)
  {
    hide Where;
    r := new Ring();
    r.Toggle();
    var n: nat := 0;
    while n < TWO_32 - LEFT_OVER
      invariant fresh(r) && fresh(r.slotLen) && fresh(r.slotHeight) && fresh(r.memory)
      invariant n <= TWO_32 - LEFT_OVER && r.Valid() && r.Ready() && r.lost == {} && |r.published| == |r.consumed| == n
    {
      MakeFrame(r, []);
      var given := r.Oldest();
      r.Release(given);
      n := n + 1;
    }
    n := 0;
    while n < LEFT_OVER
      invariant fresh(r) && fresh(r.slotLen) && fresh(r.slotHeight) && fresh(r.memory)
      invariant n <= LEFT_OVER && r.Valid() && r.Ready() && r.lost == {} && |r.consumed| == TWO_32 - LEFT_OVER
      invariant |r.published| == |r.consumed| + n && forall i :: |r.consumed| <= i < |r.published| ==> r.published[i] == Frame([], 0, 480)
    {
      MakeFrame(r, []);
      n := n + 1;
    }
    MakeFrame(r, [1]);
    CounterWrapSharesASlot();
    assert r.Unread(TWO_32);
  }
}
