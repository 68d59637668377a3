/** The chip at the far end of the debug link, as the host code relies on it: flash behind a
    lockable controller, a register file, a CPU, and the debugger's own registers. */
module Device {

  import opened Ez8
  import Crc

  const DBGCTL_DBG_MODE: Byte := 0x80
  const DBGCTL_BRK_EN: Byte := 0x40
  const DBGCTL_BRK_ACK: Byte := 0x20
  const DBGCTL_RST: Byte := 0x01

  /** The flash controller obeys erase commands and programming only after both unlock bytes. */
  datatype Lock = Locked | Half | Unlocked

  /** What an instruction can read and change besides program memory. */
  datatype Core = Core(pc: Address, regs: map<nat, Byte>)

  /** An uninterpreted instruction set: how many bytes an opcode takes, and what executing them does. */
  datatype Isa = Isa(length: Byte -> nat, execute: (Core, seq<Byte>, Image) -> (Core, Image))

  datatype Chip = Chip(flash: Image, lock: Lock, page: Byte, dbgctl: Byte, core: Core)

  function HasBit(x: Byte, bit: Byte): bool {
    x & bit != 0
  }

  predicate Halted(chip: Chip) {
    HasBit(chip.dbgctl, DBGCTL_DBG_MODE)
  }

  // ----- The register file and the flash controller -----

  function ReadReg(chip: Chip, reg: nat): Byte {
    if reg == EZ8_FIF_BASE then (match chip.lock case Locked => 0 case Half => 1 case Unlocked => 2)
    else if reg == EZ8_FIF_BASE + 1 then chip.page
    else if reg in chip.core.regs then chip.core.regs[reg] else 0
  }

  function ReadRegs(chip: Chip, address: nat, size: nat): (r: seq<Byte>)
    ensures |r| == size
  {
    seq(size, i requires 0 <= i < size => ReadReg(chip, address + i))
  }

  /** A byte written to the flash control register. */
  function Control(chip: Chip, v: Byte): Chip {
    if v == EZ8_FIF_UNLOCK_0 && chip.lock.Locked? then chip.(lock := Half)
    else if v == EZ8_FIF_UNLOCK_1 && chip.lock.Half? then chip.(lock := Unlocked)
    else if v == EZ8_FIF_PAGE_ERASE && chip.lock.Unlocked? then
      chip.(lock := Locked, flash := ErasePage(chip.flash, (chip.page & 0x7f) as nat))
    else if v == EZ8_FIF_MASS_ERASE && chip.lock.Unlocked? then
      chip.(lock := Locked, flash := Blank(EZ8MEM_SIZE))
    else chip.(lock := Locked)
  }

  function WriteReg(chip: Chip, reg: nat, v: Byte): Chip {
    if reg == EZ8_FIF_BASE then Control(chip, v)
    else if reg == EZ8_FIF_BASE + 1 then chip.(page := v)
    else chip.(core := chip.core.(regs := chip.core.regs[reg := v]))
  }

  function WriteRegs(chip: Chip, address: nat, data: seq<Byte>): Chip
    decreases |data|
  {
    if data == [] then chip else WriteRegs(WriteReg(chip, address, data[0]), address + 1, data[1..])
  }

  /** What the control register shows on the way to an unlocked controller. */
  lemma ControlShows(chip: Chip)
    ensures var locked := Control(chip, 0x00);
      var half := Control(locked, 0x73);
      var unlocked := Control(half, 0x8c);
      && ReadReg(locked, 0xff8) == 0x00 && ReadReg(half, 0xff8) == 0x01 && ReadReg(unlocked, 0xff8) == 0x02
      && ReadReg(Control(locked, 0x8c), 0xff8) == 0x00 && ReadReg(Control(half, 0x73), 0xff8) == 0x00
  {}

  /** Only a write that covers the flash control register can change flash. */
  lemma {:induction false} WriteRegsFrame(chip: Chip, address: nat, data: seq<Byte>)
    ensures var c := WriteRegs(chip, address, data);
            && c.dbgctl == chip.dbgctl && c.core.pc == chip.core.pc
            && (!(address <= EZ8_FIF_BASE < address + |data|) ==> c.flash == chip.flash && c.lock == chip.lock)
    decreases |data|
  {
    if data != [] {
      WriteRegsFrame(WriteReg(chip, address, data[0]), address + 1, data[1..]);
    }
  }

  lemma WriteRegReads(chip: Chip, address: nat, v: Byte, reg: nat)
    requires reg < EZ8_FIF_BASE
    ensures ReadReg(WriteReg(chip, address, v), reg) == if reg == address then v else ReadReg(chip, reg)
  {}

  /** Registers below those written stay, and those written, below the flash controller, hold
      what was written. */
  lemma {:induction false} WrittenReads(chip: Chip, address: nat, data: seq<Byte>, reg: nat)
    requires reg < EZ8_FIF_BASE && reg < address + |data|
    ensures ReadReg(WriteRegs(chip, address, data), reg) ==
      if reg < address then ReadReg(chip, reg) else data[reg - address]
    decreases |data|
  {
    hide ReadReg, WriteReg;
    if data != [] {
      var next := WriteReg(chip, address, data[0]);
      WriteRegReads(chip, address, data[0], reg);
      if reg == address && |data| == 1 {
        assert WriteRegs(next, address + 1, data[1..]) == next;
      } else {
        WrittenReads(next, address + 1, data[1..], reg);
      }
    }
  }

  // ----- The CPU -----

  /** Program addresses wrap at 64K. */
  function Ahead(pc: Address, k: nat): Address {
    (pc + k) % EZ8MEM_SIZE
  }

  /** The instruction at `pc` when its first byte is `opcode` and the rest is fetched from `flash`. */
  function Fetch(isa: Isa, opcode: Byte, flash: Image, pc: Address): seq<Byte> {
    var n := isa.length(opcode);
    seq(if n == 0 then 1 else n, k requires 0 <= k => if k == 0 then opcode else flash[Ahead(pc, k)])
  }

  /** At least one byte, and behind the first those that follow in flash, round its end. */
  lemma Fetched(isa: Isa, opcode: Byte, flash: Image, pc: Address, k: nat)
    ensures var bytes := Fetch(isa, opcode, flash, pc);
      && |bytes| >= 1 && bytes[0] == opcode
      && (isa.length(opcode) > 0 ==> |bytes| == isa.length(opcode))
      && (0 < k < |bytes| && k < 0x10000 ==>
          bytes[k] == if pc + k < 0x10000 then flash[pc + k] else flash[pc + k - 0x10000])
  {}

  /** One instruction, with its first byte supplied by the debugger. */
  function Execute(isa: Isa, chip: Chip, opcode: Byte): Chip {
    var (core, flash) := isa.execute(chip.core, Fetch(isa, opcode, chip.flash, chip.core.pc), chip.flash);
    chip.(core := core, flash := flash)
  }

  /** One instruction with interrupts masked around it; a DI leaves them masked. */
  function ExecuteMasked(isa: Isa, chip: Chip, opcode: Byte): Chip {
    UnmaskIrq(Execute(isa, MaskIrq(chip), opcode), ReadReg(chip, EZ8_IRQCTL), opcode)
  }

  function MaskIrq(chip: Chip): Chip {
    var irqctl := ReadReg(chip, EZ8_IRQCTL);
    if HasBit(irqctl, 0x80) then WriteRegs(chip, EZ8_IRQCTL, [irqctl & 0x7f]) else chip
  }

  function UnmaskIrq(chip: Chip, irqctl: Byte, opcode: Byte): Chip {
    if HasBit(irqctl, 0x80) && opcode != EZ8_DI_OPCODE then WriteRegs(chip, EZ8_IRQCTL, [irqctl | 0x80]) else chip
  }

  /** The enable bit is clear while the instruction executes, and no other bit or register is
      touched. */
  lemma MaskedBefore(chip: Chip)
    ensures var before, masked := ReadReg(chip, EZ8_IRQCTL), MaskIrq(chip);
      && ReadReg(masked, EZ8_IRQCTL) < 0x80
      && (before == ReadReg(masked, EZ8_IRQCTL) || before == ReadReg(masked, EZ8_IRQCTL) + 0x80)
      && (forall reg: nat :: reg != EZ8_IRQCTL ==> ReadReg(masked, reg) == ReadReg(chip, reg))
      && masked == chip.(core := masked.core) && masked.core.pc == chip.core.pc
  {
    hide ReadReg, HasBit;
    HighBit(ReadReg(chip, EZ8_IRQCTL));
    OneReg(chip, EZ8_IRQCTL, ReadReg(chip, EZ8_IRQCTL) & 0x7f);
  }

  /** Afterwards the control register holds what it held before, unless the bit was clear then or
      the instruction was a DI, when the instruction has the last word. */
  lemma UnmaskedAfter(isa: Isa, chip: Chip, opcode: Byte)
    ensures var before, done := ReadReg(chip, EZ8_IRQCTL), Execute(isa, MaskIrq(chip), opcode);
      var after := ExecuteMasked(isa, chip, opcode);
      if before < 0x80 || opcode == 0x8f then after == done
      else
        && ReadReg(after, EZ8_IRQCTL) == before
        && (forall reg: nat :: reg != EZ8_IRQCTL ==> ReadReg(after, reg) == ReadReg(done, reg))
        && after == done.(core := after.core) && after.core.pc == done.core.pc
  {
    hide ReadReg, HasBit, Execute, MaskIrq;
    var before := ReadReg(chip, EZ8_IRQCTL);
    HighBit(before);
    OneReg(Execute(isa, MaskIrq(chip), opcode), EZ8_IRQCTL, before | 0x80);
  }

  lemma HighBit(x: Byte)
    ensures HasBit(x, 0x80) <==> x >= 0x80
    ensures x & 0x7f < 0x80 && (x == x & 0x7f || x == (x & 0x7f) + 0x80)
    ensures x >= 0x80 ==> x | 0x80 == x
  {}

  lemma OneReg(chip: Chip, reg: nat, v: Byte)
    requires reg != EZ8_FIF_BASE && reg != EZ8_FIF_BASE + 1
    ensures var c := WriteRegs(chip, reg, [v]);
      && c == chip.(core := c.core) && c.core.pc == chip.core.pc
      && ReadReg(c, reg) == v && forall other: nat :: other != reg ==> ReadReg(c, other) == ReadReg(chip, other)
  {
    assert [v][1..] == [];
    assert WriteRegs(chip, reg, [v]) == WriteReg(chip, reg, v);
  }

  function Opcode(chip: Chip): Byte {
    chip.flash[chip.core.pc]
  }

  // ----- Program memory size (ez8dbg::memory_size) -----

  /** Revisions that code their sizes alike; 0 for a revision the host does not know. */
  function SizeGroup(rev: nat): (group: nat)
    ensures group <= 3
  {
    if rev in {0x0100, 0x0110, 0x0120, 0x0121, 0x0122, 0x0123, 0x0125, 0x0126, 0x0127, 0x012B, 0x012C, 0x012D} then 1
    else if rev in {0x0124, 0x0128, 0x012A, 0x012E, 0x012F} then 2
    else if rev in {0x0130, 0x0131} then 3
    else 0
  }

  function SizeOf(group: nat, code: Byte, last: nat): nat {
    if group == 1 then
      if code == 0 then 0x0800 else if code == 1 then 0x1000 else if code == 2 then 0x2000
      else if code == 3 then 0x4000 else if code == 4 then 0x6000 else if code == 5 then 0x8000
      else if code == 6 then 0xc000 else 0x10000
    else
      if code == 0 then 0x0400 else if code == 1 then 0x0800 else if code == 2 then 0x1000
      else if code == 3 then 0x2000 else if code == 4 then 0x4000 else if code == 5 then 0x8000
      else if code == 6 then 0x10000 else last
  }

  /** The size coded by the two registers, or 0 for a revision the host does not know. */
  function MemorySize(revid: nat, memsize: Byte): (size: nat)
    ensures size <= EZ8MEM_SIZE && size % EZ8MEM_PAGESIZE == 0
  {
    hide SizeGroup;
    var rev := revid % 0x8000;
    var group := SizeGroup(rev);
    var last := if group != 3 then 0x10000 else if rev == 0x0130 then 0x3000 else 0x6000;
    if group == 0 then 0 else SizeOf(group, memsize & 0x07, last)
  }

  /** Whether the size is known depends on the revision alone. */
  lemma SizeUnknown(revid: nat, a: Byte, b: Byte)
    ensures MemorySize(revid, a) == 0 <==> MemorySize(revid, b) == 0
  {
    hide SizeGroup;
  }

  /** The revisions whose size the host knows, and the sizes in Kbytes by the low three bits of
      the size register. */
  lemma SizeInK(revid: nat, memsize: Byte)
    ensures var rev, code := revid % 0x8000, memsize as nat % 8;
      MemorySize(revid, memsize) ==
      if rev == 0x0100 || rev == 0x0110 || (0x0120 <= rev <= 0x0131 && rev != 0x0129) then
        1024 * (if rev <= 0x0123 || 0x0125 <= rev <= 0x0127 || 0x012b <= rev <= 0x012d
                then [2, 4, 8, 16, 24, 32, 48, 64][code]
                else [1, 2, 4, 8, 16, 32, 64, if rev == 0x0130 then 12 else if rev == 0x0131 then 24 else 64][code])
      else 0
  {
    var rev := revid % 0x8000;
    LowBits(memsize);
    Revisions(rev);
    hide SizeGroup;
  }

  lemma LowBits(x: Byte)
    ensures (x & 0x07) as nat == x as nat % 8 && x & 0x07 < 8
  {
    assert x & 0x07 == x % 8;
  }

  lemma Revisions(rev: nat)
    ensures SizeGroup(rev) ==
      if rev == 0x0100 || rev == 0x0110 || (0x0120 <= rev <= 0x0131 && rev != 0x0129) then
        if rev <= 0x0123 || 0x0125 <= rev <= 0x0127 || 0x012b <= rev <= 0x012d then 1
        else if rev >= 0x0130 then 3 else 2
      else 0
  {}

  /** What the device's CRC command covers. */
  function ImageCrc(m: Image, size: nat): bv16
    requires size <= EZ8MEM_SIZE
  {
    Crc.Checksum(0, m[..size])
  }

  /** How one command to the chip can go wrong on an unreliable link: not at all, or lost after
      `n` of its payload bytes took effect. */
  datatype Fate = Arrives | Lost(n: nat)

  class Ocd {
    const reliable: bool
    const revid: nat
    const memsize: Byte
    const size: nat
    const protect: bool
    const isa: Isa
    var chip: Chip
    /** Every write to program memory the chip has received. */
    var writes: seq<(nat, seq<Byte>)>

    constructor (reliable: bool, revid: nat, memsize: Byte, size: nat, protect: bool, isa: Isa, chip: Chip)
      ensures this.reliable == reliable && this.revid == revid && this.memsize == memsize && this.size == size
      ensures this.protect == protect && this.isa == isa && this.chip == chip && writes == []
    {
      this.reliable, this.revid, this.memsize, this.size := reliable, revid, memsize, size;
      this.protect, this.isa, this.chip, writes := protect, isa, chip, [];
    }

    /** The flash size the chip really has, wherever the host can tell it. */
    ghost predicate Valid()
      reads this
    {
      size <= EZ8MEM_SIZE && (MemorySize(revid, memsize) != 0 ==> size == MemorySize(revid, memsize))
    }

    ghost function FlashCrc(): bv16
      requires Valid()
      reads this
    {
      ImageCrc(chip.flash, size)
    }

    method Transmit() returns (fate: Fate)
      ensures reliable ==> fate.Arrives?
    {
      fate := Arrives;
      if !reliable {
        fate := *;
      }
    }

    /** The CPU runs on its own whenever the debugger has not halted it, and may halt at a breakpoint. */
    method Tick()
      modifies this`chip
      ensures Halted(old(chip)) ==> chip == old(chip)
    {
      if !Halted(chip) {
        chip := *;
      }
    }
  }
}
