/** The board's end of a USB DFU 1.1 download: the requests, the staging memory and the burn that follows. */
module Dfu {
  import SpiNor

  datatype State = Idle | DnloadSync | DnloadIdle | ManifestSync | Manifest | ManifestWait | Error

  datatype Status = Ok | ErrAddress | ErrNotDone | ErrFirmware | ErrStalledPkt

  datatype Request = Dnload(block: nat, data: seq<bv8>) | GetStatus | ClrStatus | GetState | Abort | Detach | Upload

  datatype Reply = Stall | Done | StatusIs(status: Status, pollMs: nat, state: State) | StateIs(at: State)

  /** What the board remembers of a download. `got` is what is staged. */
  datatype Board = Board(state: State, status: Status, got: seq<bv8>, expected: nat, ready: bool)

  /** A firmware image begins with an ARM branch and fits the slot. */
  predicate ImageValid(image: seq<bv8>) {
    4096 <= |image| <= SpiNor.FW_SIZE && image[3] == 0xEA
  }

  function Failed(b: Board, code: Status): Board {
    b.(state := Error, status := code)
  }

  /** A control request, handled in the USB interrupt. */
  function Handle(b: Board, r: Request): (Board, Reply) {
    match r
    case Dnload(block, data) =>
      if data == [] then
        if b.state != DnloadIdle then (Failed(b, ErrNotDone), Stall) else (b.(state := ManifestSync), Done)
      else if b.state != Idle && b.state != DnloadIdle then (Failed(b, ErrStalledPkt), Stall)
      else
        var c := if b.state == Idle then b.(got := [], expected := 0, ready := false) else b;
        if block != c.expected || |c.got| + |data| > SpiNor.FW_SIZE then (Failed(c, ErrAddress), Stall)
        else (c.(state := DnloadSync, got := c.got + data, expected := c.expected + 1), Done)
    case GetStatus =>
      var c := Polled(b);
      (c, StatusIs(c.status, if c.state == Manifest then 500 else 0, c.state))
    case GetState => (b, StateIs(b.state))
    case ClrStatus => (if b.state == Error then b.(state := Idle, status := Ok) else b, Done)
    case Abort =>
      (if b.state == Manifest || b.state == ManifestWait then b else b.(state := Idle, got := [], expected := 0), Done)
    case Detach => (b, Done)
    case Upload => (b, Stall)
  }

  /** The transitions that DFU 1.1 ties to GETSTATUS. */
  function Polled(b: Board): Board {
    match b.state
    case DnloadSync => b.(state := DnloadIdle)
    case ManifestSync => if ImageValid(b.got) then b.(ready := true, state := Manifest) else Failed(b, ErrFirmware)
    case Manifest => b.(state := ManifestWait)
    case _ => b
  }

  /** A block of the image: when it is refused and why, and what an accepted one does. */
  lemma BlockRules(b: Board, block: nat, data: seq<bv8>)
    requires data != []
    ensures var (c, r) := Handle(b, Dnload(block, data));
      var next, have := if b.state == Idle then 0 else b.expected, if b.state == Idle then 0 else |b.got|;
      && (b.state != Idle && b.state != DnloadIdle ==> r == Stall && c == b.(state := Error, status := ErrStalledPkt))
      && ((b.state == Idle || b.state == DnloadIdle) && (block != next || have + |data| > 0x4_0000) ==>
           r == Stall && c.state == Error && c.status == ErrAddress && c.got == b.got[..have])
      && ((b.state == Idle || b.state == DnloadIdle) && block == next && have + |data| <= 0x4_0000 ==>
           && r == Done && c.state == DnloadSync && c.status == b.status && c.expected == next + 1
           && c.got == b.got[..have] + data && c.ready == (b.ready && b.state == DnloadIdle))
  {
  }

  /** The end of the image, which must follow a block that was asked about. */
  lemma EndRules(b: Board, block: nat)
    ensures Handle(b, Dnload(block, [])) ==
      if b.state == DnloadIdle then (b.(state := ManifestSync), Done) else (b.(state := Error, status := ErrNotDone), Stall)
  {
  }

  /** The status request, state by state; only an image just accepted makes the host wait, for 500 ms. */
  lemma StatusRules(b: Board)
    ensures var (c, r) := Handle(b, GetStatus);
      && r == StatusIs(c.status, if b.state == ManifestSync && c.state == Manifest then 500 else 0, c.state)
      && c.got == b.got && c.expected == b.expected
      && (b.state == DnloadSync ==> c == b.(state := DnloadIdle))
      && (b.state == ManifestSync && 4096 <= |b.got| <= 0x4_0000 && b.got[3] == 0xEA ==> c == b.(state := Manifest, ready := true))
      && (b.state == ManifestSync && !(4096 <= |b.got| <= 0x4_0000 && b.got[3] == 0xEA) ==> c == b.(state := Error, status := ErrFirmware))
      && (b.state == Manifest ==> c == b.(state := ManifestWait))
      && (b.state == Idle || b.state == DnloadIdle || b.state == ManifestWait || b.state == Error ==> c == b)
  {
  }

  /** The other requests: the state is told, an error is cleared, a transfer is aborted, and nothing is uploaded. */
  lemma OtherRules(b: Board)
    ensures Handle(b, GetState) == (b, StateIs(b.state)) && Handle(b, Detach) == (b, Done) && Handle(b, Upload) == (b, Stall)
    ensures Handle(b, ClrStatus) == (if b.state == Error then b.(state := Idle, status := Ok) else b, Done)
    ensures b.state == Manifest || b.state == ManifestWait ==> Handle(b, Abort) == (b, Done)
    ensures b.state != Manifest && b.state != ManifestWait ==>
      Handle(b, Abort) == (Board(Idle, b.status, [], 0, b.ready), Done)
    ensures BusReset(b) == if b.ready then b else Board(Idle, Ok, [], 0, false)
  {
  }

  function BusReset(b: Board): Board {
    if b.ready then b else b.(state := Idle, status := Ok, got := [], expected := 0)
  }

  const POWER_ON: Board := Board(Idle, Ok, [], 0, false)

  datatype Event = Asked(r: Request) | Reset

  function Step(b: Board, e: Event): Board {
    match e
    case Asked(r) => Handle(b, r).0
    case Reset => BusReset(b)
  }

  function Run(b: Board, es: seq<Event>): Board {
    if es == [] then b else Step(Run(b, es[..|es| - 1]), es[|es| - 1])
  }

  /** What every host keeps true, however it behaves. */
  predicate Sane(b: Board) {
    && |b.got| <= SpiNor.FW_SIZE && b.expected <= |b.got|
    && (b.state == Error ==> b.status != Ok)
    && (b.state == Manifest || b.state == ManifestWait ==> b.ready && ImageValid(b.got))
    && (b.ready ==> b.got == [] || ImageValid(b.got))
    && (b.state == DnloadSync || b.state == DnloadIdle || b.state == ManifestSync ==> !b.ready && b.got != [])
  }

  lemma {:induction false} EveryRunIsSane(es: seq<Event>)
    ensures Sane(Run(POWER_ON, es))
    decreases |es|
  {
    if es != [] {
      EveryRunIsSane(es[..|es| - 1]);
    }
  }

  /** Anything but an attempt to download. */
  predicate Harmless(e: Event) {
    e.Asked? ==> !e.r.Dnload?
  }

  /** An accepted image stays accepted and stays the same until a host starts over; no reset or abort takes it away. */
  lemma {:induction false} ReadyIsKept(b: Board, es: seq<Event>)
    requires b.ready && (b.state == Manifest || b.state == ManifestWait)
    requires forall e :: e in es ==> Harmless(e)
    ensures var c := Run(b, es); c.ready && c.got == b.got && (c.state == Manifest || c.state == ManifestWait)
    decreases |es|
  {
    if es != [] {
      var before := es[..|es| - 1];
      ReadyIsKept(b, before);
      assert Harmless(es[|es| - 1]);
    }
  }

  class UsbDfu {
    var state: State
    var status: Status
    var received: nat
    var expectedBlock: nat
    var imageReady: bool
    const stage: array<bv8>
    /** The one burn a power-up gets has been started. */
    var burnt: bool

    constructor (memory: array<bv8>)
      requires memory.Length == SpiNor.FW_SIZE
      ensures Valid() && B() == POWER_ON && stage == memory && !burnt
    {
      state, status, received, expectedBlock, imageReady, stage, burnt := Idle, Ok, 0, 0, false, memory, false;
    }

    ghost predicate Valid()
      reads this
    {
      stage.Length == SpiNor.FW_SIZE && received <= SpiNor.FW_SIZE
    }

    ghost function B(): Board
      requires Valid()
      reads this, stage
    {
      Board(state, status, stage[..received], expectedBlock, imageReady)
    }

    method Fail(code: Status)
      modifies this`state, this`status
      ensures status == code && state == Error
    {
      status := code;
      state := Error;
    }

    method Store(data: seq<bv8>)
      requires Valid() && received + |data| <= SpiNor.FW_SIZE
      modifies stage
      ensures stage[..received + |data|] == old(stage[..received]) + data
    {
      ghost var got := stage[..received];
      for i := 0 to |data|
        invariant stage[..received + i] == got + data[..i]
      {
        stage[received + i] := data[i];
      }
      assert data[..|data|] == data;
    }

    /** A block of the image. */
    method DnloadBlock(block: nat, data: seq<bv8>) returns (r: Reply)
      requires Valid() && data != []
      modifies this, stage
      ensures Valid() && (B(), r) == Handle(old(B()), Dnload(block, data)) && burnt == old(burnt)
    {
      r := Stall;
      if state != Idle && state != DnloadIdle {
        Fail(ErrStalledPkt);
        return;
      }
      if state == Idle {
        received, expectedBlock, imageReady := 0, 0, false;
      }
      if block != expectedBlock {
        Fail(ErrAddress);
        return;
      }
      if received + |data| > SpiNor.FW_SIZE {
        Fail(ErrAddress);
        return;
      }
      Store(data);
      received := received + |data|;
      expectedBlock := expectedBlock + 1;
      state := DnloadSync;
      r := Done;
    }

    method StatusReport() returns (r: Reply)
      requires Valid()
      modifies this`state, this`status, this`imageReady
      ensures Valid() && (B(), r) == Handle(old(B()), GetStatus) && burnt == old(burnt)
    {
      var pollMs := 0;
      match state {
        case DnloadSync => state := DnloadIdle;
        case ManifestSync =>
          if received >= 4096 && received <= SpiNor.FW_SIZE && stage[3] == 0xEA {
            imageReady, state, pollMs := true, Manifest, 500;
          } else {
            Fail(ErrFirmware);
          }
        case Manifest => state := ManifestWait;
        case _ =>
      }
      r := StatusIs(status, pollMs, state);
    }

    method ClassHandler(req: Request) returns (r: Reply)
      requires Valid()
      modifies this, stage
      ensures Valid() && (B(), r) == Handle(old(B()), req) && burnt == old(burnt)
    {
      r := Done;
      match req {
        case Dnload(block, data) =>
          if data != [] {
            r := DnloadBlock(block, data);
          } else if state != DnloadIdle {
            Fail(ErrNotDone);
            r := Stall;
          } else {
            state := ManifestSync;
          }
        case GetStatus => r := StatusReport();
        case GetState => r := StateIs(state);
        case ClrStatus =>
          if state == Error {
            status, state := Ok, Idle;
          }
        case Abort =>
          if state != Manifest && state != ManifestWait {
            state, received, expectedBlock := Idle, 0, 0;
          }
        case Detach =>
        case Upload => r := Stall;
      }
    }

    /** A bus reset, which leaves an image that waits for its burn alone. */
    method NotifyReset()
      requires Valid()
      modifies this
      ensures Valid() && B() == BusReset(old(B())) && burnt == old(burnt)
    {
      if !imageReady {
        state, status, received, expectedBlock := Idle, Ok, 0, 0;
      }
    }

    /** The main loop's part: a ready image is burnt, with one more try, and the board reboots into it. */
    method Poll(chip: SpiNor.Nor) returns (reboots: bool)
      requires Valid() && chip.Valid()
      modifies this`burnt, chip
      ensures chip.Valid() && SpiNor.OutsideSlot(chip.mem, old(chip.mem), received)
      ensures reboots ==> chip.mem[SpiNor.FW_OFF..SpiNor.FW_OFF + received] == B().got
      ensures imageReady && !old(burnt) && (chip.working || received == 0) ==> reboots
      ensures received == 0 ==> chip.mem == old(chip.mem)
      ensures Sane(B()) && reboots ==> received == 0 || ImageValid(chip.mem[SpiNor.FW_OFF..SpiNor.FW_OFF + received])
      ensures !imageReady || old(burnt) ==> !reboots && chip.mem == old(chip.mem)
    {
      SpiNor.SlotKept(chip.mem, received);
      if !imageReady || burnt {
        return false;
      }
      burnt := true;
      var r := chip.Burn(stage[..received]);
      if r != 0 {
        r := chip.Burn(stage[..received]);
      }
      reboots := r == 0;
    }
  }

  /**
   * A board that is ready with nothing staged: its image was accepted, a block that comes too late puts it in error,
   * and an abort forgets the bytes but not that there was an image. It reboots and has written nothing.
   */
  method EmptyBurn(chip: SpiNor.Nor) returns (dev: UsbDfu, reboots: bool)
    requires chip.Valid()
    modifies chip
    ensures fresh(dev) && dev.Valid() && dev.imageReady && dev.received == 0 && reboots && chip.mem == old(chip.mem)
  {
    var memory := new bv8[SpiNor.FW_SIZE];
    dev := new UsbDfu(memory);
    var image := seq(4096, _ => 0xEA);
    var r := dev.ClassHandler(Dnload(0, image));
    assert [] + image == image;
    r := dev.ClassHandler(GetStatus);
    r := dev.ClassHandler(Dnload(1, []));
    r := dev.ClassHandler(GetStatus);
    assert dev.B().state == Manifest;
    r := dev.ClassHandler(Dnload(0, [0]));
    r := dev.ClassHandler(Abort);
    reboots := dev.Poll(chip);
  }
}
