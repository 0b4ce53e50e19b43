/** The boot flash and its driver: 4 KB erase, page program that can only clear bits, and the burn that uses them. */
module SpiNor {
  const SECTOR: nat := 4096
  const PAGE: nat := 256
  const CHIP: nat := 0x100_0000
  const FW_OFF: nat := 0x10_0000
  const FW_SIZE: nat := 0x4_0000

  /** `m` with every byte of the sector at `addr` erased. */
  ghost predicate ErasedAt(m: seq<bv8>, was: seq<bv8>, addr: nat) {
    && |m| == |was|
    && forall i :: 0 <= i < |m| ==> m[i] == if i / SECTOR == addr / SECTOR then 0xFF else was[i]
  }

  /** Programming a cell can only clear bits. */
  function Cleared(cell: bv8, data: bv8): bv8 {
    cell & data
  }

  /** `m` is `was` with the bits of `data` cleared from `addr` on, one byte after the other. */
  ghost predicate MaskedAt(m: seq<bv8>, was: seq<bv8>, addr: nat, data: seq<bv8>) {
    && |m| == |was|
    && forall i :: 0 <= i < |m| ==> m[i] == if addr <= i < addr + |data| then Cleared(was[i], data[i - addr]) else was[i]
  }

  /** Only the block of `unit` bytes that `addr` is in may differ. */
  ghost predicate OnlyBlock(m: seq<bv8>, was: seq<bv8>, addr: nat, unit: nat)
    requires unit > 0
  {
    |m| == |was| && forall i :: 0 <= i < |m| && i / unit != addr / unit ==> m[i] == was[i]
  }

  /** The cells a page program reaches: past the end of the page it goes on at the page's start. */
  function Programmed(m: seq<bv8>, addr: nat, data: seq<bv8>): (r: seq<bv8>)
    requires addr < |m| && |m| % PAGE == 0
    ensures |r| == |m|
  {
    if data == [] then m
    else
      var k := |data| - 1;
      var a := addr / PAGE * PAGE + (addr + k) % PAGE;
      InPage(addr, |m|, k);
      var p := Programmed(m, addr, data[..k]);
      p[a := Cleared(p[a], data[k])]
  }

  lemma InBlock(i: nat, addr: nat, unit: nat)
    requires unit > 0
    ensures i / unit == addr / unit <==> addr / unit * unit <= i < addr / unit * unit + unit
  {
    var q, a := i / unit, addr / unit;
    assert i == q * unit + i % unit;
    if q < a {
      assert (q + 1) * unit <= a * unit;
    } else if q > a {
      assert (a + 1) * unit <= q * unit;
    }
  }

  lemma InPage(addr: nat, size: nat, k: nat)
    requires addr < size && size % PAGE == 0
    ensures addr / PAGE * PAGE + (addr + k) % PAGE < size
  {
    var p, n := addr / PAGE, size / PAGE;
    assert size == PAGE * n && p < n;
    assert PAGE * p + PAGE <= PAGE * n;
  }

  lemma CellInPage(addr: nat, k: nat)
    requires k < PAGE - addr % PAGE
    ensures addr / PAGE * PAGE + (addr + k) % PAGE == addr + k
  {
    assert addr == addr / PAGE * PAGE + addr % PAGE;
  }

  /** A program that stays within its page clears the bits of consecutive cells. */
  lemma {:induction false} WithinPage(m: seq<bv8>, addr: nat, data: seq<bv8>)
    requires addr < |m| && |m| % PAGE == 0 && |data| <= PAGE - addr % PAGE
    ensures MaskedAt(Programmed(m, addr, data), m, addr, data)
    decreases |data|
  {
    if data != [] {
      var k := |data| - 1;
      WithinPage(m, addr, data[..k]);
      CellInPage(addr, k);
    }
  }

  lemma {:induction false} ProgramStaysInPage(m: seq<bv8>, addr: nat, data: seq<bv8>)
    requires addr < |m| && |m| % PAGE == 0
    ensures OnlyBlock(Programmed(m, addr, data), m, addr, PAGE)
    decreases |data|
  {
    if data != [] {
      var k := |data| - 1;
      ProgramStaysInPage(m, addr, data[..k]);
      InPage(addr, |m|, k);
    }
  }

  /** The flash chip. One that does not work may spoil the sector or page it was told to change, or never be done. */
  class Nor {
    var mem: seq<bv8>
    var writeEnabled: bool
    const working: bool

    constructor (contents: seq<bv8>, ok: bool)
      requires |contents| == CHIP
      ensures mem == contents && working == ok && Valid()
    {
      mem, working, writeEnabled := contents, ok, false;
    }

    ghost predicate Valid()
      reads this
    {
      |mem| == CHIP
    }

    method WriteEnable()
      modifies this`writeEnabled
      ensures writeEnabled
    {
      writeEnabled := true;
    }

    /** A sector erase command, ignored unless writing was enabled. */
    method SectorErase(addr: nat)
      requires Valid() && addr < CHIP
      modifies this
      ensures Valid() && !writeEnabled
      ensures !old(writeEnabled) ==> mem == old(mem)
      ensures old(writeEnabled) && working ==> ErasedAt(mem, old(mem), addr)
      ensures OnlyBlock(mem, old(mem), addr, SECTOR)
    {
      if writeEnabled {
        ghost var was := mem;
        var at := addr / SECTOR * SECTOR;
        if working {
          mem := mem[..at] + seq(SECTOR, _ => 0xFF) + mem[at + SECTOR..];
          forall i | 0 <= i < CHIP ensures mem[i] == if i / SECTOR == addr / SECTOR then 0xFF else was[i] {
            InBlock(i, addr, SECTOR);
          }
        } else {
          Spoil(at, SECTOR);
        }
        writeEnabled := false;
      }
    }

    /** A page program command, ignored unless writing was enabled. */
    method PageProgram(addr: nat, data: seq<bv8>)
      requires Valid() && addr < CHIP
      modifies this
      ensures Valid() && !writeEnabled
      ensures !old(writeEnabled) ==> mem == old(mem)
      ensures old(writeEnabled) && working ==> mem == Programmed(old(mem), addr, data)
      ensures OnlyBlock(mem, old(mem), addr, PAGE)
    {
      ProgramStaysInPage(mem, addr, data);
      if writeEnabled {
        if working {
          mem := Programmed(mem, addr, data);
        } else {
          Spoil(addr / PAGE * PAGE, PAGE);
        }
        writeEnabled := false;
      }
    }

    method Spoil(at: nat, n: nat)
      requires Valid() && at + n <= CHIP
      modifies this`mem
      ensures Valid() && forall i :: 0 <= i < CHIP && !(at <= i < at + n) ==> mem[i] == old(mem)[i]
    {
      var junk: seq<bv8> :| |junk| == n by {
        assert |seq(n, _ => 0 as bv8)| == n;
      }
      mem := mem[..at] + junk + mem[at + n..];
    }

    /** Whether the chip is done in time; one that works always is. */
    method WaitReady() returns (r: int)
      ensures r == 0 || r == -1
      ensures working ==> r == 0
    {
      r := 0;
      var late: bool := *;
      if !working && late {
        r := -1;
      }
    }

    method Erase4k(addr: nat) returns (r: int)
      requires Valid() && addr < CHIP
      modifies this
      ensures Valid() && OnlyBlock(mem, old(mem), addr, SECTOR)
      ensures working ==> r == 0 && ErasedAt(mem, old(mem), addr)
    {
      WriteEnable();
      SectorErase(addr);
      r := WaitReady();
    }

    /** Programs any run of bytes, a page at a time so that no page wraps. */
    method Write(addr: nat, data: seq<bv8>) returns (r: int)
      requires Valid() && addr + |data| <= CHIP
      modifies this
      ensures Valid() && OnlyPages(mem, old(mem), addr, addr + |data|)
      ensures working ==> r == 0 && MaskedAt(mem, old(mem), addr, data)
      ensures data == [] ==> r == 0 && mem == old(mem)
    {
      hide Programmed, OnlyPages, OnlyBlock, MaskedAt;
      ghost var was := mem;
      NothingWritten(was, addr);
      var at, done := addr, 0;
      assert data[..0] == [];
      while done < |data|
        invariant Valid() && done <= |data| && at == addr + done && OnlyPages(mem, was, addr, at)
        invariant working ==> MaskedAt(mem, was, addr, data[..done])
        invariant data == [] ==> mem == was
      {
        var room := PAGE - at % PAGE;
        var n := if |data| - done < room then |data| - done else room;
        ghost var before := mem;
        WriteEnable();
        PageProgram(at, data[done..done + n]);
        PageOfRun(mem, before, was, addr, at, n);
        if working {
          WithinPage(before, at, data[done..done + n]);
          MaskedRun(mem, before, was, addr, data, done, n);
        }
        r := WaitReady();
        if r != 0 {
          WiderPages(mem, was, addr, at + n, addr + |data|);
          return -1;
        }
        at, done := at + n, done + n;
      }
      assert data[..done] == data;
      return 0;
    }

    /** Reads in runs of at most 4 KB. */
    method Read(addr: nat, n: nat) returns (s: seq<bv8>)
      requires Valid() && addr + n <= CHIP
      ensures s == mem[addr..addr + n]
    {
      s := [];
      while |s| < n
        invariant |s| <= n && s == mem[addr..addr + |s|]
      {
        var k := if n - |s| > 4096 then 4096 else n - |s|;
        s := s + mem[addr + |s|..addr + |s| + k];
      }
    }

    /** Erases the sectors an image needs, programs it, and reads it back. */
    method Burn(stage: seq<bv8>) returns (r: int)
      requires Valid() && |stage| <= FW_SIZE
      modifies this
      ensures Valid() && OutsideSlot(mem, old(mem), |stage|)
      ensures r == 0 ==> mem[FW_OFF..FW_OFF + |stage|] == stage
      ensures working || stage == [] ==> r == 0
      ensures stage == [] ==> mem == old(mem)
    {
      hide OutsideSlot, OnlyPages, OnlyBlock, MaskedAt, ErasedAt;
      ghost var was := mem;
      var size := |stage|;
      SlotKept(was, size);
      var sectors := (size + SECTOR - 1) / SECTOR;
      for i := 0 to sectors
        invariant Valid() && OutsideSlot(mem, was, size) && (stage == [] ==> mem == was)
        invariant working ==> forall j :: FW_OFF <= j < FW_OFF + i * SECTOR ==> mem[j] == 0xFF
      {
        ghost var before := mem;
        var e := Erase4k(FW_OFF + i * SECTOR);
        SectorOfSlot(mem, before, was, size, i);
        if e != 0 {
          return -1;
        }
      }
      ghost var blank := mem;
      var w := Write(FW_OFF, stage);
      SlotPages(mem, blank, was, size);
      if w != 0 {
        return -2;
      }
      if working {
        BlankTakes(mem, blank, stage);
      }
      r := ReadBack(stage);
    }

    /** Compares the slot with the image, a sector at a time. */
    method ReadBack(stage: seq<bv8>) returns (r: int)
      requires Valid() && |stage| <= FW_SIZE
      ensures r == 0 <==> mem[FW_OFF..FW_OFF + |stage|] == stage
    {
      var size, off := |stage|, 0;
      while off < size
        invariant off % SECTOR == 0 && mem[FW_OFF..FW_OFF + Least(off, size)] == stage[..Least(off, size)]
      {
        var n := if size - off < SECTOR then size - off else SECTOR;
        var back := Read(FW_OFF + off, n);
        SubSlice(mem, FW_OFF, size, off, n);
        if back != stage[off..off + n] {
          return -3;
        }
        assert stage[..off + n] == stage[..off] + stage[off..off + n];
        off := off + SECTOR;
      }
      assert stage[..size] == stage;
      return 0;
    }
  }

  lemma SubSlice(m: seq<bv8>, at: nat, size: nat, off: nat, n: nat)
    requires at + size <= |m| && off + n <= size
    ensures m[at..at + size][off..off + n] == m[at + off..at + off + n]
    ensures m[at..at + off + n] == m[at..at + off] + m[at + off..at + off + n]
  {
    var x, z := m[at..at + size], m[at + off..at + off + n];
    var y := x[off..off + n];
    forall k | 0 <= k < n ensures y[k] == z[k] {
      assert y[k] == x[off + k];
    }
    assert y == z;
  }

  /** Erased cells take any bits. */
  lemma BlankTakes(m: seq<bv8>, blank: seq<bv8>, data: seq<bv8>)
    requires FW_OFF + |data| <= |m| && MaskedAt(m, blank, FW_OFF, data)
    requires forall j :: FW_OFF <= j < FW_OFF + |data| ==> blank[j] == 0xFF
    ensures m[FW_OFF..FW_OFF + |data|] == data
  {
    forall i | 0 <= i < |data| ensures m[FW_OFF + i] == data[i] {
      assert blank[FW_OFF + i] == 0xFF;
      AllOnes(data[i]);
    }
  }

  lemma AllOnes(x: bv8)
    ensures Cleared(0xFF, x) == x
  {
  }

  function Least(a: nat, b: nat): nat {
    if a < b then a else b
  }

  /** Only the pages that hold bytes from `lo` up to `hi` may differ. */
  ghost predicate OnlyPages(m: seq<bv8>, was: seq<bv8>, lo: nat, hi: nat) {
    |m| == |was| && forall i :: 0 <= i < |m| && !(lo < hi && lo / PAGE <= i / PAGE <= (hi - 1) / PAGE) ==> m[i] == was[i]
  }

  /** Only the sectors that an image of `size` bytes occupies may differ. */
  ghost predicate OutsideSlot(m: seq<bv8>, was: seq<bv8>, size: nat) {
    && |m| == |was|
    && forall i :: 0 <= i < |m| && !(FW_OFF <= i < FW_OFF + (size + SECTOR - 1) / SECTOR * SECTOR) ==> m[i] == was[i]
  }

  lemma SlotKept(m: seq<bv8>, size: nat)
    ensures OutsideSlot(m, m, size)
  {
  }

  lemma NothingWritten(m: seq<bv8>, addr: nat)
    ensures OnlyPages(m, m, addr, addr) && MaskedAt(m, m, addr, [])
  {
  }

  lemma MaskedRun(m: seq<bv8>, before: seq<bv8>, was: seq<bv8>, addr: nat, data: seq<bv8>, done: nat, n: nat)
    requires done + n <= |data| && MaskedAt(before, was, addr, data[..done])
    requires MaskedAt(m, before, addr + done, data[done..done + n])
    ensures MaskedAt(m, was, addr, data[..done + n])
  {
    hide Cleared;
    var part := data[done..done + n];
    forall i | 0 <= i < |m| ensures m[i] == if addr <= i < addr + done + n then Cleared(was[i], data[..done + n][i - addr]) else was[i] {
      if addr + done <= i < addr + done + n {
        assert part[i - (addr + done)] == data[i - addr];
        assert before[i] == was[i];
      } else {
        assert m[i] == before[i];
      }
    }
  }

  lemma PageOfRun(m: seq<bv8>, before: seq<bv8>, was: seq<bv8>, lo: nat, at: nat, n: nat)
    requires OnlyBlock(m, before, at, PAGE) && OnlyPages(before, was, lo, at) && lo <= at && 0 < n <= PAGE - at % PAGE
    ensures OnlyPages(m, was, lo, at + n)
  {
    assert (at + n - 1) / PAGE == at / PAGE;
    assert lo < at ==> (at - 1) / PAGE <= at / PAGE;
    assert lo / PAGE <= at / PAGE;
  }

  lemma WiderPages(m: seq<bv8>, was: seq<bv8>, lo: nat, hi: nat, end: nat)
    requires OnlyPages(m, was, lo, hi) && hi <= end
    ensures OnlyPages(m, was, lo, end)
  {
    assert lo < hi ==> (hi - 1) / PAGE <= (end - 1) / PAGE;
  }

  /** Erasing sector `i` of the slot stays inside it. */
  lemma SectorOfSlot(m: seq<bv8>, before: seq<bv8>, was: seq<bv8>, size: nat, i: nat)
    requires i < (size + SECTOR - 1) / SECTOR && OutsideSlot(before, was, size)
    requires OnlyBlock(m, before, FW_OFF + i * SECTOR, SECTOR)
    ensures OutsideSlot(m, was, size)
    ensures ErasedAt(m, before, FW_OFF + i * SECTOR) && |m| >= FW_OFF + (i + 1) * SECTOR ==>
      forall j :: FW_OFF + i * SECTOR <= j < FW_OFF + (i + 1) * SECTOR ==> m[j] == 0xFF
    ensures ErasedAt(m, before, FW_OFF + i * SECTOR) ==> forall j :: FW_OFF <= j < FW_OFF + i * SECTOR && j < |m| ==> m[j] == before[j]
  {
    var at := FW_OFF + i * SECTOR;
    assert at / SECTOR == FW_OFF / SECTOR + i && at / SECTOR * SECTOR == at;
    forall j: nat | j < |m| ensures j / SECTOR == at / SECTOR <==> at <= j < at + SECTOR {
      InBlock(j, at, SECTOR);
    }
  }

  lemma BeforePage(i: nat, page: nat)
    requires i < page * PAGE
    ensures i / PAGE < page
    ensures forall j :: page * PAGE <= j ==> page <= j / PAGE
  {
  }

  lemma SlotPages(m: seq<bv8>, blank: seq<bv8>, was: seq<bv8>, size: nat)
    requires OnlyPages(m, blank, FW_OFF, FW_OFF + size) && OutsideSlot(blank, was, size)
    ensures OutsideSlot(m, was, size)
  {
    var sectors := (size + SECTOR - 1) / SECTOR;
    var end := FW_OFF + sectors * SECTOR;
    assert end == (FW_OFF / PAGE + sectors * (SECTOR / PAGE)) * PAGE && FW_OFF + size <= end;
    forall i | 0 <= i < |m| && !(FW_OFF <= i < end) ensures m[i] == was[i] {
      if i < FW_OFF {
        BeforePage(i, FW_OFF / PAGE);
      } else {
        BeforePage(FW_OFF + size - 1, FW_OFF / PAGE + sectors * (SECTOR / PAGE));
      }
    }
  }
}
