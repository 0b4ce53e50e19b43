/** The desktop's end of a firmware download, against the board and a bus that may be reset at any point. */
module DfuHost {
  import SpiNor
  import opened Dfu

  const DFU_XFER_SIZE: nat := 4096

  /** What may happen around the host's requests. */
  datatype World = World(resets: bool, loses: bool, cancels: bool)

  predicate Quiet(w: World) {
    !w.resets && !w.loses && !w.cancels
  }

  datatype Outcome = Finished | Vanished | Rejected(why: Why)

  datatype Why = TooSmall | TooLarge | NoBranch | Lost | BadStatus(s: Status) | NotIdle | Cancelled | Refused | Deadline

  datatype Verdict = Fine | Bad(why: Why)

  /** The checks made before a byte is sent. */
  function ValidateImage(image: seq<bv8>): (v: Verdict)
    ensures v.Fine? <==> ImageValid(image)
  {
    if |image| < 4096 then Bad(TooSmall)
    else if |image| > 0x4_0000 then Bad(TooLarge)
    else if image[3] != 0xEA then Bad(NoBranch)
    else Fine
  }

  /** The board can be brought back to idle: it says why it failed, or it is at rest or in a transfer with nothing wrong. */
  predicate CanStart(b: Board) {
    || b.state == Error
    || (b.status == Ok && (b.state == Idle || b.state == DnloadSync || b.state == DnloadIdle))
    || (b.state == ManifestSync && !ImageValid(b.got))
  }

  /** A block out of order and an abort leave a board that is idle and that no download can start on. */
  lemma AbortHidesAnError()
    ensures var b := Run(POWER_ON, [Asked(Dnload(1, [0])), Asked(Abort)]);
      b.state == Idle && b.status == ErrAddress && !CanStart(b)
  {
    var es := [Asked(Dnload(1, [0])), Asked(Abort)];
    assert es[..1] == [es[0]] && es[..1][..0] == [];
    assert Run(POWER_ON, es[..1]) == Step(Run(POWER_ON, []), es[0]);
  }

  /** A first block that is refused: none, one out of order, or one larger than the slot. */
  predicate FailsFirst(block: nat, data: seq<bv8>) {
    data == [] || block != 0 || |data| > SpiNor.FW_SIZE
  }

  /** Such a board is given back by a reset while no image is accepted, by a second failure, and by no other event. */
  lemma WhatGivesItBack(b: Board, e: Event)
    requires b.state == Idle && b.status != Ok
    ensures CanStart(Step(b, e)) <==> if e.Reset? then !b.ready else e.r.Dnload? && FailsFirst(e.r.block, e.r.data)
  {
  }

  datatype Answer = Nothing | Got(reply: Reply)

  /** One request. A reset may come first; a transfer may get lost on its way there or back. */
  method Ask(dev: UsbDfu, w: World, req: Request) returns (a: Answer)
    requires dev.Valid()
    modifies dev, dev.stage
    ensures dev.Valid() && dev.burnt == old(dev.burnt)
    ensures !w.loses ==> a.Got?
    ensures a.Got? ==> Handled(old(dev.B()), w, req, dev.B(), a.reply)
    ensures a.Nothing? ==> Missed(old(dev.B()), w, req, dev.B())
  {
    var reset, lost, late: bool := *, *, *;
    if w.resets && reset {
      dev.NotifyReset();
    }
    if w.loses && lost {
      return Nothing;
    }
    var r := dev.ClassHandler(req);
    if w.loses && late {
      return Nothing;
    }
    return Got(r);
  }

  predicate Handled(before: Board, w: World, req: Request, after: Board, r: Reply) {
    Handle(before, req) == (after, r) || (w.resets && Handle(BusReset(before), req) == (after, r))
  }

  /** The request or its answer did not arrive. */
  predicate Missed(before: Board, w: World, req: Request, after: Board) {
    after == before || after == Handle(before, req).0
    || (w.resets && (after == BusReset(before) || after == Handle(BusReset(before), req).0))
  }

  /** While blocks are sent: all of them so far are staged, or a reset has made the board forget them. */
  predicate Sending(b: Board, w: World, image: seq<bv8>, sent: nat, block: nat)
    requires sent <= |image|
  {
    && b.status == Ok
    && (if sent == 0 then b.state == Idle && block == 0
        else block > 0 && ((w.resets && b.state == Idle) || Staged(b, image[..sent], block)))
  }

  predicate Staged(b: Board, image: seq<bv8>, block: nat) {
    b.state == DnloadIdle && b.got == image && b.expected == block && !b.ready
  }

  /** After the end block: the image is being judged or was accepted, or the download came to nothing. */
  predicate Ending(b: Board, w: World, image: seq<bv8>) {
    || (b.state == ManifestSync && b.status == Ok && b.got == image && !b.ready)
    || (b.state == Manifest && b.status == Ok && b.got == image && b.ready)
    || (w.resets && (b.state == Idle || b.state == Error))
  }

  /** When the host sees the board no more: the whole image is staged and nothing is wrong, unless a reset came. */
  predicate Gone(b: Board, w: World, image: seq<bv8>) {
    w.resets || (b.got == image && b.status == Ok && (b.state == ManifestSync || b.state == Manifest || b.state == ManifestWait))
  }

  /** A request without data, and the state it left the board in. */
  method PutAndAsk(dev: UsbDfu, w: World, req: Request) returns (a: Answer)
    requires dev.Valid()
    modifies dev, dev.stage
    ensures dev.Valid() && dev.burnt == old(dev.burnt) && (a.Nothing? ==> w.loses)
    ensures a.Got? ==> a.reply.StatusIs? && a.reply.status == dev.status && a.reply.state == dev.state
    ensures Quiet(w) ==> a.Got? && (dev.B(), a.reply) == Handle(Handle(old(dev.B()), req).0, GetStatus)
  {
    a := Ask(dev, w, req);
    if a.Got? {
      a := Ask(dev, w, GetStatus);
    }
  }

  /** Whatever a former transfer left behind, the board ends up idle, or the host gives up. */
  method ToIdle(dev: UsbDfu, w: World) returns (bad: Verdict)
    requires dev.Valid()
    modifies dev, dev.stage
    ensures dev.Valid() && dev.burnt == old(dev.burnt)
    ensures bad.Fine? ==> dev.state == Idle && dev.status == Ok
    ensures Quiet(w) ==> (bad.Fine? <==> CanStart(old(dev.B())))
    ensures bad.Bad? ==> (bad.why.Lost? && w.loses) || (bad.why.BadStatus? && bad.why.s != Ok) || bad.why.NotIdle?
  {
    var a := Ask(dev, w, GetStatus);
    if a.Nothing? {
      return Bad(Lost);
    }
    if a.reply.state == Error {
      a := PutAndAsk(dev, w, ClrStatus);
      if a.Nothing? {
        return Bad(Lost);
      }
    }
    if a.reply.state != Idle {
      a := PutAndAsk(dev, w, Abort);
      if a.Nothing? {
        return Bad(Lost);
      }
    }
    if a.reply.status != Ok {
      return Bad(BadStatus(a.reply.status));
    }
    if a.reply.state != Idle {
      return Bad(NotIdle);
    }
    return Fine;
  }

  /** Sends one block, and the GETSTATUS that the board needs to take the next. */
  method SendBlock(dev: UsbDfu, w: World, ghost image: seq<bv8>, ghost sent: nat, block: nat, chunk: seq<bv8>) returns (bad: Verdict)
    requires dev.Valid() && sent + |chunk| <= |image| <= SpiNor.FW_SIZE && chunk == image[sent..sent + |chunk|] && chunk != []
    requires Sending(dev.B(), w, image, sent, block)
    modifies dev, dev.stage
    ensures dev.Valid() && dev.burnt == old(dev.burnt)
    ensures bad.Fine? ==> Sending(dev.B(), w, image, sent + |chunk|, block + 1)
    ensures Quiet(w) ==> bad.Fine?
    ensures bad.Bad? ==> (bad.why.Lost? && w.loses) || (bad.why.BadStatus? && bad.why.s != Ok) || bad.why.Refused?
  {
    assert image[..sent] + chunk == image[..sent + |chunk|];
    assert [] + chunk == chunk;
    var a := Ask(dev, w, Dnload(block, chunk));
    if a.Nothing? {
      return Bad(Lost);
    }
    if a.reply == Stall {
      return Bad(Refused);
    }
    a := Ask(dev, w, GetStatus);
    if a.Nothing? {
      return Bad(Lost);
    }
    if a.reply.status != Ok {
      return Bad(BadStatus(a.reply.status));
    }
    return Fine;
  }

  /** Polls through manifestation, `patience` times at least. */
  method AwaitManifest(dev: UsbDfu, w: World, ghost image: seq<bv8>, patience: nat) returns (out: Outcome)
    requires dev.Valid() && ImageValid(image) && Ending(dev.B(), w, image)
    modifies dev, dev.stage
    ensures dev.Valid() && dev.burnt == old(dev.burnt)
    ensures out.Finished? ==> dev.B().got == image && dev.imageReady && dev.state == ManifestWait
    ensures Quiet(w) && patience >= 1 ==> out.Finished?
    ensures out.Vanished? ==> w.loses && Gone(dev.B(), w, image)
    ensures out.Rejected? ==> (out.why.BadStatus? && out.why.s != Ok) || (out.why.Deadline? && (!Quiet(w) || patience == 0))
  {
    var polls := 0;
    while true
      invariant dev.Valid() && dev.burnt == old(dev.burnt) && polls <= patience
      invariant Ending(dev.B(), w, image)
      invariant Quiet(w) ==> polls == 0 || (polls == 1 && dev.state == Manifest)
      decreases patience - polls
    {
      var a := Ask(dev, w, GetStatus);
      if a.Nothing? {
        return Vanished;
      }
      if a.reply.status != Ok {
        return Rejected(BadStatus(a.reply.status));
      }
      if a.reply.state == ManifestWait {
        return Finished;
      }
      if polls == patience {
        return Rejected(Deadline);
      }
      polls := polls + 1;
    }
  }

  /**
   * The whole download. When it ends at MANIFEST-WAIT-RESET the board has exactly the image staged and will burn it,
   * wherever the bus was reset; when nothing disturbs it, it succeeds exactly when the board can be brought to idle.
   */
  method Download(dev: UsbDfu, w: World, image: seq<bv8>, patience: nat) returns (out: Outcome)
    requires dev.Valid()
    modifies dev, dev.stage
    ensures dev.Valid() && dev.burnt == old(dev.burnt)
    ensures out.Finished? ==> ImageValid(image) && dev.B().got == image && dev.imageReady && dev.state == ManifestWait
    ensures !ImageValid(image) ==> out.Rejected? && dev.B() == old(dev.B())
    ensures Quiet(w) && patience >= 1 && ImageValid(image) ==> (out.Finished? <==> CanStart(old(dev.B())))
    ensures out.Vanished? ==> w.loses && ImageValid(image) && Gone(dev.B(), w, image)
    ensures out == Rejected(Cancelled) ==> w.cancels
    ensures |image| < 4096 <==> out == Rejected(TooSmall)
    ensures |image| > 0x4_0000 <==> out == Rejected(TooLarge)
    ensures 4096 <= |image| <= 0x4_0000 && image[3] != 0xEA <==> out == Rejected(NoBranch)
  {
    var bad := ValidateImage(image);
    if bad.Bad? {
      return Rejected(bad.why);
    }
    bad := ToIdle(dev, w);
    if bad.Bad? {
      return Rejected(bad.why);
    }
    var block, sent := 0, 0;
    while sent < |image|
      invariant sent <= |image| && dev.Valid() && dev.burnt == old(dev.burnt)
      invariant Sending(dev.B(), w, image, sent, block)
      invariant Quiet(w) ==> CanStart(old(dev.B()))
    {
      var cancel: bool := *;
      if w.cancels && cancel {
        return Rejected(Cancelled);
      }
      var n := if |image| - sent < DFU_XFER_SIZE then |image| - sent else DFU_XFER_SIZE;
      bad := SendBlock(dev, w, image, sent, block, image[sent..sent + n]);
      if bad.Bad? {
        return Rejected(bad.why);
      }
      block, sent := block + 1, sent + n;
    }
    assert image[..sent] == image;
    // The end block's own answer is not looked at.
    var a := Ask(dev, w, Dnload(block, []));
    if a.Nothing? {
      return Rejected(Lost);
    }
    out := AwaitManifest(dev, w, image, patience);
  }

  /** From the file to the flash: a finished download, burnt by a chip that works, leaves the slot equal to the file. */
  method Update(dev: UsbDfu, chip: SpiNor.Nor, w: World, image: seq<bv8>, patience: nat) returns (out: Outcome, reboots: bool)
    requires dev.Valid() && chip.Valid()
    modifies dev, dev.stage, chip
    ensures chip.Valid()
    ensures out.Finished? ==> |image| <= SpiNor.FW_SIZE && (chip.working && !old(dev.burnt) ==> reboots)
    ensures out.Finished? && reboots ==> chip.mem[SpiNor.FW_OFF..SpiNor.FW_OFF + |image|] == image
    ensures out.Finished? ==> SpiNor.OutsideSlot(chip.mem, old(chip.mem), |image|)
  {
    out := Download(dev, w, image, patience);
    reboots := dev.Poll(chip);
  }
}
