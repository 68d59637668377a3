/** What the debugger's operations compute, on values: pages, writes, the cached copy, and the
    list of breakpoints (ez8dbg_flash.cpp and ez8dbg_brk.cpp). */
module Memory {

  import opened Ez8
  import opened Device
  import opened FlashBlocks

  // ----- Pages and writes -----

  /** The page range that covers a block of addresses. */
  function PageStart(address: nat): nat {
    address - address % EZ8MEM_PAGESIZE
  }

  function PageEnd(end: nat): nat {
    if end % EZ8MEM_PAGESIZE == 0 then end else end + EZ8MEM_PAGESIZE - end % EZ8MEM_PAGESIZE
  }

  predicate PageBlank(m: Image, page: nat)
    requires (page + 1) * EZ8MEM_PAGESIZE <= EZ8MEM_SIZE
  {
    forall i :: page * EZ8MEM_PAGESIZE <= i < (page + 1) * EZ8MEM_PAGESIZE ==> m[i] == 0xff
  }

  /** Flash after the pages of [lo, hi) that `known` shows as programmed were erased. */
  function ErasePages(flash: Image, known: Image, lo: nat, hi: nat): Image {
    seq(EZ8MEM_SIZE, i requires 0 <= i < EZ8MEM_SIZE =>
      if lo <= i < hi && !PageBlank(known, i / EZ8MEM_PAGESIZE) then 0xff else flash[i])
  }

  /** Flash after wr_mem, when `known` is what the host takes the pages to hold. */
  function AfterWrite(flash: Image, known: Image, address: nat, data: seq<Byte>): Image
    requires address + |data| <= EZ8MEM_SIZE
  {
    var lo, hi := PageStart(address), PageEnd(address + |data|);
    Program(ErasePages(flash, known, lo, hi), lo, Overlay(known, address, data)[lo..hi])
  }

  /** A read served from the host's copy: bytes beyond the chip's memory read as erased. */
  function CacheSlice(m: Image, length: nat, address: nat, size: nat): (r: seq<Byte>)
    requires address + size <= EZ8MEM_SIZE
    ensures |r| == size
  {
    seq(size, i requires 0 <= i < size => if address + i < length then m[address + i] else 0xff)
  }

  lemma CacheSliceSynced(m: Image, flash: Image, length: nat, address: nat, size: nat)
    requires length <= EZ8MEM_SIZE && address + size <= EZ8MEM_SIZE
    ensures m[..length] == flash[..length] && address + size <= length ==>
              CacheSlice(m, length, address, size) == flash[address..address + size]
  {
    if m[..length] == flash[..length] && address + size <= length {
      assert m[address..address + size] == m[..length][address..address + size];
      assert flash[address..address + size] == flash[..length][address..address + size];
    }
  }

  /** Beyond the chip's memory the host reads erased bytes. */
  lemma CacheSliceBeyond(m: Image, length: nat, address: nat, size: nat)
    requires length <= EZ8MEM_SIZE && address + size <= EZ8MEM_SIZE
    ensures length <= address ==> CacheSlice(m, length, address, size) == Blank(size)
    ensures address < length < address + size ==>
      CacheSlice(m, length, address, size) == m[address..length] + Blank(address + size - length)
  {}

  lemma OverlaySlice(m: Image, at: nat, data: seq<Byte>)
    requires at + |data| <= EZ8MEM_SIZE
    ensures Overlay(m, at, data)[at..at + |data|] == data
  {}

  lemma OverlayIs(m: Image, at: nat, data: seq<Byte>, r: seq<Byte>)
    requires at + |data| <= EZ8MEM_SIZE == |r|
    requires forall i :: 0 <= i < EZ8MEM_SIZE ==> r[i] == if at <= i < at + |data| then data[i - at] else m[i]
    ensures r == Overlay(m, at, data)
  {}

  lemma PageBounds(address: nat, size: nat, n: nat)
    requires address + size <= EZ8MEM_SIZE && n % EZ8MEM_PAGESIZE == 0
    ensures PageStart(address) <= address && address + size <= PageEnd(address + size) <= EZ8MEM_SIZE
    ensures PageStart(address) % EZ8MEM_PAGESIZE == 0 && PageEnd(address + size) % EZ8MEM_PAGESIZE == 0
    ensures address + size <= n ==> PageEnd(address + size) <= n
  {}

  predicate Agree(a: Image, b: Image, lo: nat, hi: nat) {
    forall i :: lo <= i < hi && i < EZ8MEM_SIZE ==> a[i] == b[i]
  }

  lemma BaseAgrees(flash: Image, mem: Image, lo: nat, hi: nat, n: nat)
    requires lo <= hi <= EZ8MEM_SIZE && n <= EZ8MEM_SIZE
    ensures Agree(flash, Overlay(mem, lo, flash[lo..hi]), lo, hi)
    ensures mem[..n] == flash[..n] ==> Overlay(mem, lo, flash[lo..hi])[..n] == flash[..n]
    ensures mem[..n] == flash[..n] && hi <= n ==> Agree(flash, mem, lo, hi)
  {
    OverlaySynced(mem, flash, n, lo, hi - lo);
    if mem[..n] == flash[..n] && hi <= n {
      assert forall i :: 0 <= i < n ==> mem[..n][i] == flash[..n][i];
    }
  }

  lemma SyncedCrc(a: Image, b: Image, n: nat)
    requires n <= EZ8MEM_SIZE
    ensures a[..n] == b[..n] ==> ImageCrc(a, n) == ImageCrc(b, n)
  {}

  lemma OverlaySame(m: Image, flash: Image, lo: nat, hi: nat)
    requires lo <= hi <= EZ8MEM_SIZE
    ensures Agree(m, flash, lo, hi) ==> Overlay(m, lo, flash[lo..hi]) == m
  {}

  /** When the host knows the touched pages, wr_mem leaves exactly the old flash with the new
      data over it, and the copy follows. */
  lemma WriteAgrees(flash: Image, known: Image, address: nat, data: seq<Byte>, n: nat)
    requires address + |data| <= EZ8MEM_SIZE && n <= EZ8MEM_SIZE
    ensures Agree(flash, known, PageStart(address), PageEnd(address + |data|)) ==>
              var after := AfterWrite(flash, known, address, data);
              && after == Overlay(flash, address, data)
              && Agree(Overlay(known, address, data), after, PageStart(address), PageEnd(address + |data|))
              && (known[..n] == flash[..n] ==> Overlay(known, address, data)[..n] == after[..n])
  {
    hide And, PageBlank;
    var lo, hi := PageStart(address), PageEnd(address + |data|);
    PageBounds(address, |data|, 0);
    if Agree(flash, known, lo, hi) {
      var after := AfterWrite(flash, known, address, data);
      forall i | 0 <= i < EZ8MEM_SIZE
        ensures after[i] == Overlay(flash, address, data)[i]
      {
        if lo <= i < hi {
          var byte := Overlay(known, address, data)[i];
          assert after[i] == And(ErasePages(flash, known, lo, hi)[i], byte);
          ErasedOrBlank(flash, known, lo, hi, i);
          AndBlank(byte);
        }
      }
      assert known[..n] == flash[..n] ==> forall i :: 0 <= i < n ==> known[..n][i] == flash[..n][i];
    }
  }

  /** And that is so exactly when, on the touched pages, every byte beside the data is known or
      lies on a page the host takes for blank, and every data byte on such a page can be
      programmed over what the chip really holds there. */
  lemma WriteExact(flash: Image, known: Image, address: nat, data: seq<Byte>)
    requires address + |data| <= EZ8MEM_SIZE
    ensures AfterWrite(flash, known, address, data) == Overlay(flash, address, data) <==>
      forall i :: PageStart(address) <= i < PageEnd(address + |data|) && i < EZ8MEM_SIZE ==>
        WritesRight(flash, known, address, data, i)
  {
    hide And, PageBlank, PageStart, PageEnd;
    var lo, hi := PageStart(address), PageEnd(address + |data|);
    PageBounds(address, |data|, 0);
    var after, want := AfterWrite(flash, known, address, data), Overlay(flash, address, data);
    forall i | lo <= i < hi
      ensures after[i] == want[i] <==> WritesRight(flash, known, address, data, i)
    {
      var byte := Overlay(known, address, data)[i];
      var under := ErasePages(flash, known, lo, hi)[i];
      assert after[i] == And(under, byte);
      AndBlank(byte);
      if PageBlank(known, i / EZ8MEM_PAGESIZE) {
        BlankByte(known, i);
        AndBlank(flash[i]);
      }
    }
    assert forall i :: 0 <= i < EZ8MEM_SIZE && !(lo <= i < hi) ==> after[i] == want[i];
    if forall i :: lo <= i < hi ==> WritesRight(flash, known, address, data, i) {
      assert after == want;
    }
  }

  predicate WritesRight(flash: Image, known: Image, address: nat, data: seq<Byte>, i: Address)
    requires address + |data| <= EZ8MEM_SIZE
  {
    var blank := PageBlank(known, i / EZ8MEM_PAGESIZE);
    if address <= i < address + |data| then blank ==> And(flash[i], data[i - address]) == data[i - address]
    else blank || known[i] == flash[i]
  }

  lemma BlankByte(m: Image, i: Address)
    ensures PageBlank(m, i / EZ8MEM_PAGESIZE) ==> m[i] == 0xff
  {}

  /** A page that is not erased was blank already. */
  lemma ErasedOrBlank(flash: Image, known: Image, lo: nat, hi: nat, i: nat)
    requires lo <= i < hi <= EZ8MEM_SIZE && flash[i] == known[i]
    ensures ErasePages(flash, known, lo, hi)[i] == 0xff
  {}

  lemma ErasePagesNone(flash: Image, known: Image, lo: nat)
    ensures ErasePages(flash, known, lo, lo) == flash
  {}

  lemma ErasePagesStep(flash: Image, known: Image, lo: nat, at: nat)
    requires lo <= at < EZ8MEM_SIZE && at % EZ8MEM_PAGESIZE == 0
    ensures ErasePages(flash, known, lo, at + EZ8MEM_PAGESIZE) ==
            var e := ErasePages(flash, known, lo, at);
            if PageBlank(known, at / EZ8MEM_PAGESIZE) then e else ErasePage(e, at / EZ8MEM_PAGESIZE)
  {
    hide PageBlank;
    var p := at / EZ8MEM_PAGESIZE;
    assert forall i :: at <= i < at + EZ8MEM_PAGESIZE <==> i / EZ8MEM_PAGESIZE == p;
  }

  /** Copying in what the other image holds keeps two equal prefixes equal. */
  lemma OverlaySynced(m: Image, flash: Image, length: nat, at: nat, size: nat)
    requires length <= EZ8MEM_SIZE && at + size <= EZ8MEM_SIZE
    ensures m[..length] == flash[..length] ==> Overlay(m, at, flash[at..at + size])[..length] == flash[..length]
  {
    if m[..length] == flash[..length] {
      forall i | 0 <= i < length
        ensures Overlay(m, at, flash[at..at + size])[i] == flash[i]
      {
        assert m[i] == m[..length][i] == flash[..length][i];
      }
    }
  }

  lemma OverlayByte(m: Image, at: Address, data: seq<Byte>)
    requires |data| == 1
    ensures Overlay(m, at, data) == m[at := data[0]]
  {}

  lemma ProgramZero(m: Image, at: Address)
    ensures Program(m, at, [0]) == m[at := 0]
  {
    AndZero(m[at]);
  }

  lemma UpdatePast(m: Image, at: Address, n: nat)
    requires n <= EZ8MEM_SIZE
    ensures n <= at ==> m[at := 0][..n] == m[..n] && ImageCrc(m[at := 0], n) == ImageCrc(m, n)
  {}

  lemma SyncedUpdate(m: Image, flash: Image, at: Address, n: nat)
    requires n <= EZ8MEM_SIZE
    ensures m[..n] == flash[..n] ==> m[at := 0][..n] == flash[at := 0][..n]
    ensures m[..n] == flash[..n] ==> m[at := flash[at]][at := 0][..n] == flash[at := 0][..n]
  {
    if m[..n] == flash[..n] {
      forall i | 0 <= i < n ensures m[i] == flash[i] {
        assert m[i] == m[..n][i] == flash[..n][i];
      }
    }
  }

  /** Unless checksums collide, a byte the host sees is the chip's. */
  lemma SyncedByte(m: Image, flash: Image, n: nat, at: Address)
    requires n <= EZ8MEM_SIZE
    ensures m[..n] == flash[..n] && at < n ==> m[at] == flash[at]
  {
    if m[..n] == flash[..n] && at < n {
      assert m[at] == m[..n][at] && flash[at] == flash[..n][at];
    }
  }

  lemma CoverStart(m: Image, address: nat, buff: seq<Byte>, next: nat)
    requires next <= |buff| && Erased(buff, 0, next) && address + |buff| <= EZ8MEM_SIZE
    ensures Cover(buff, next, []) && Commands(address, buff, []) == [] && ProgramBlocks(m, address, buff, []) == m
  {}

  // ----- The flash controller -----

  lemma EraseAll(chip: Chip)
    ensures chip.lock == Unlocked ==>
      WriteRegs(chip, EZ8_FIF_BASE, [EZ8_FIF_MASS_ERASE]) == chip.(lock := Locked, flash := Blank(EZ8MEM_SIZE))
  {
    WriteOne(chip, EZ8_FIF_MASS_ERASE);
  }

  /** The erase command, on an unlocked controller, erases the selected page. */
  lemma EraseSelected(chip: Chip, page: nat)
    requires page < 0x80
    ensures chip.lock == Unlocked && chip.page == page as Byte ==>
              WriteRegs(chip, EZ8_FIF_BASE, [EZ8_FIF_PAGE_ERASE]) ==
              chip.(lock := Locked, flash := ErasePage(chip.flash, page))
  {
    hide ErasePage;
    WriteOne(chip, EZ8_FIF_PAGE_ERASE);
    PageByte(page);
  }

  lemma PageByte(page: nat)
    requires page < 0x80
    ensures (((page as Byte) & 0x7f) as nat) == page
  {
    assert (page as Byte) & 0x7f == page as Byte;
  }

  /** No erase or programming is ever left in progress. */
  lemma StatusIdle(chip: Chip)
    ensures var status := ReadReg(chip, EZ8_FIF_BASE);
      status <= 4 && !HasBit(status, 0x10) && !HasBit(status, 0x20)
  {}

  /** What restore_flash_state leaves of the controller, as its comparisons are written. */
  function Restored(chip: Chip, state: seq<Byte>): (c: Chip)
    requires |state| == 4
    ensures c.flash == chip.flash
  {
    hide WriteRegs;
    var regs := ReadRegs(chip, EZ8_FIF_BASE, 4);
    var c := if state[0] != regs[0] then RestoredControl(chip, regs[0]) else chip;
    var d := if state[1] != regs[1] then WriteReg(c, EZ8_FIF_BASE + 1, state[1]) else c;
    WriteRegsFrame(d, EZ8_FIF_BASE + 2, state[2..]);
    if state[2..] == regs[2..] then WriteRegs(d, EZ8_FIF_BASE + 2, state[2..]) else d
  }

  function RestoredControl(chip: Chip, control: Byte): (c: Chip)
    ensures c == chip.(lock := c.lock)
  {
    var locked := Control(chip, EZ8_FIF_LOCK);
    if HasBit(control, 0x03) then
      var half := Control(locked, EZ8_FIF_UNLOCK_0);
      if HasBit(control, 0x02) then Control(half, EZ8_FIF_UNLOCK_1) else half
    else if HasBit(control, 0x04) then Control(locked, EZ8_FIF_PROT_REG)
    else locked
  }

  /** Writing the unlock bytes that the current control register calls for changes nothing. */
  lemma ControlStays(chip: Chip)
    ensures RestoredControl(chip, ReadReg(chip, EZ8_FIF_BASE)) == chip
  {}

  lemma PageWritten(chip: Chip, page: Byte)
    ensures ReadRegs(WriteReg(chip, EZ8_FIF_BASE + 1, page), EZ8_FIF_BASE, 4) ==
      ReadRegs(chip, EZ8_FIF_BASE, 4)[1 := page]
  {}

  lemma ClockWritten(chip: Chip, hi: Byte, lo: Byte)
    ensures ReadRegs(WriteRegs(chip, EZ8_FIF_BASE + 2, [hi, lo]), EZ8_FIF_BASE, 4) ==
      [ReadReg(chip, EZ8_FIF_BASE), ReadReg(chip, EZ8_FIF_BASE + 1), hi, lo]
  {
    ClockIs(chip, hi, lo);
  }

  lemma FourRegs(chip: Chip)
    ensures ReadRegs(chip, EZ8_FIF_BASE, 4) ==
      [ReadReg(chip, EZ8_FIF_BASE), ReadReg(chip, EZ8_FIF_BASE + 1)] + ReadRegs(chip, EZ8_FIF_BASE + 2, 2)
  {
    hide ReadReg;
  }

  /** What is read back after a restore. */
  lemma RestoredReads(chip: Chip, state: seq<Byte>)
    requires |state| == 4
    ensures ReadRegs(Restored(chip, state), EZ8_FIF_BASE, 4) ==
      [ReadReg(chip, EZ8_FIF_BASE), state[1]] + ReadRegs(chip, EZ8_FIF_BASE + 2, 2)
  {
    hide RestoredControl, HasBit, WriteRegs, WriteReg, ReadReg, ReadRegs;
    var regs := ReadRegs(chip, EZ8_FIF_BASE, 4);
    FourRegs(chip);
    ControlStays(chip);
    var d := if state[1] != regs[1] then WriteReg(chip, EZ8_FIF_BASE + 1, state[1]) else chip;
    PageWritten(chip, state[1]);
    FourRegs(d);
    assert regs[2..] == ReadRegs(chip, EZ8_FIF_BASE + 2, 2) == ReadRegs(d, EZ8_FIF_BASE, 4)[2..];
    if state[2..] == regs[2..] {
      assert state[2..] == [state[2], state[3]];
      ClockWritten(d, state[2], state[3]);
    }
  }

  /** All four registers come back as saved if and only if the control and clock registers held
      the saved values already; the page byte always does. */
  lemma RestoreExact(chip: Chip, state: seq<Byte>)
    requires |state| == 4
    ensures ReadRegs(Restored(chip, state), EZ8_FIF_BASE, 4)[1] == state[1]
    ensures ReadRegs(Restored(chip, state), EZ8_FIF_BASE, 4) == state <==>
      ReadReg(chip, EZ8_FIF_BASE) == state[0] && ReadRegs(chip, EZ8_FIF_BASE + 2, 2) == state[2..]
  {
    hide ReadReg, ReadRegs, Restored;
    RestoredReads(chip, state);
    assert state == [state[0], state[1]] + state[2..];
  }

  /** Saved unlocked, found locked: the controller stays locked. */
  lemma RestoreLosesUnlock(chip: Chip)
    requires chip.lock == Locked
    ensures ReadRegs(Restored(chip, [0x02, 0x00, 0x00, 0x00]), EZ8_FIF_BASE, 4)[0] == 0x00
  {
    RestoredReads(chip, [0x02, 0x00, 0x00, 0x00]);
  }

  lemma WriteOneReg(chip: Chip, reg: nat, v: Byte)
    ensures WriteRegs(chip, reg, [v]) == WriteReg(chip, reg, v)
  {
    assert [v][1..] == [];
  }

  lemma WriteOne(chip: Chip, v: Byte)
    ensures WriteRegs(chip, EZ8_FIF_BASE, [v]) == Control(chip, v)
  {
    assert [v][1..] == [];
  }

  /** The clock registers set: the high byte of the frequency in the first. */
  function Clocked(chip: Chip, hi: Byte, lo: Byte): (c: Chip)
    ensures c == chip.(core := c.core) && c.core.pc == chip.core.pc
  {
    chip.(core := chip.core.(regs := chip.core.regs[EZ8_FIF_BASE + 2 := hi][EZ8_FIF_BASE + 3 := lo]))
  }

  lemma ClockedReads(chip: Chip, hi: Byte, lo: Byte, reg: nat)
    ensures ReadReg(Clocked(chip, hi, lo), reg) ==
      if reg == 0xffa then hi else if reg == 0xffb then lo else ReadReg(chip, reg)
  {}

  /** What is left of a chip besides flash, the controller and the clock registers. */
  function Besides(chip: Chip, hi: Byte, lo: Byte): Chip {
    Clocked(chip, hi, lo).(flash := Blank(EZ8MEM_SIZE), lock := Locked, page := 0)
  }

  lemma BesidesSame(a: Chip, b: Chip, hi: Byte, lo: Byte)
    requires Besides(a, hi, lo) == Besides(b, hi, lo)
    ensures Clocked(a, hi, lo) == Clocked(b, hi, lo).(flash := a.flash, lock := a.lock, page := a.page)
    ensures a.dbgctl == b.dbgctl && a.core.pc == b.core.pc
  {
    assert Clocked(a, hi, lo).core == Besides(a, hi, lo).core;
    assert Clocked(b, hi, lo).core == Besides(b, hi, lo).core;
  }

  lemma BesidesOf(chip: Chip, hi: Byte, lo: Byte, flash: Image, lock: Lock, page: Byte)
    ensures Besides(Clocked(chip, hi, lo).(flash := flash, lock := lock, page := page), hi, lo) == Besides(chip, hi, lo)
    ensures Clocked(Clocked(chip, hi, lo), hi, lo) == Clocked(chip, hi, lo)
  {
    var regs := chip.core.regs[EZ8_FIF_BASE + 2 := hi][EZ8_FIF_BASE + 3 := lo];
    assert regs[EZ8_FIF_BASE + 2 := hi][EZ8_FIF_BASE + 3 := lo] == regs;
  }

  /** The unlock sequence of flash_setup leaves the controller ready for the selected page. */
  lemma SetupUnlocks(chip: Chip, page: Byte, hi: Byte, lo: Byte)
    ensures var a := WriteRegs(chip, EZ8_FIF_BASE, [EZ8_FIF_LOCK, page, hi, lo]);
            var c := WriteRegs(WriteRegs(a, EZ8_FIF_BASE, [EZ8_FIF_UNLOCK_0]), EZ8_FIF_BASE, [EZ8_FIF_UNLOCK_1]);
            c == Clocked(chip, hi, lo).(lock := Unlocked, page := page)
  {
    var data := [EZ8_FIF_LOCK, page, hi, lo];
    var a := WriteRegs(chip, EZ8_FIF_BASE, data);
    var b0 := Control(chip, EZ8_FIF_LOCK).(page := page);
    assert a == WriteRegs(b0, EZ8_FIF_BASE + 2, [hi, lo]) by {
      assert data[1..] == [page, hi, lo] && data[1..][1..] == [hi, lo];
      assert WriteReg(chip, EZ8_FIF_BASE, data[0]) == Control(chip, EZ8_FIF_LOCK);
      assert WriteRegs(b0, EZ8_FIF_BASE + 2, [hi, lo]) ==
             WriteRegs(Control(chip, EZ8_FIF_LOCK), EZ8_FIF_BASE + 1, [page, hi, lo]);
    }
    ClockIs(b0, hi, lo);
    assert b0 == chip.(lock := Locked, page := page);
    assert a == Clocked(chip, hi, lo).(lock := Locked, page := page);
    WriteOne(a, EZ8_FIF_UNLOCK_0);
    var b := Control(a, EZ8_FIF_UNLOCK_0);
    assert b == a.(lock := Half);
    WriteOne(b, EZ8_FIF_UNLOCK_1);
  }

  lemma ClockIs(chip: Chip, hi: Byte, lo: Byte)
    ensures WriteRegs(chip, EZ8_FIF_BASE + 2, [hi, lo]) == Clocked(chip, hi, lo)
  {
    var next := WriteReg(chip, EZ8_FIF_BASE + 2, hi);
    assert [hi, lo][1..] == [lo];
    WriteOneReg(next, EZ8_FIF_BASE + 3, lo);
    assert WriteRegs(chip, EZ8_FIF_BASE + 2, [hi, lo]) == WriteRegs(next, EZ8_FIF_BASE + 3, [lo]);
  }

  /** After a write, on a locked controller whose clock is set, the restore brings back the page
      and leaves everything else. */
  lemma RestoreAfterWrite(chip: Chip, hi: Byte, lo: Byte, state: seq<Byte>)
    requires |state| == 4 && chip.lock == Locked && chip == Clocked(chip, hi, lo)
    ensures Restored(chip, state) == chip.(page := state[1])
  {
    hide RestoredControl, HasBit, WriteRegs, ReadRegs, Clocked;
    var regs := ReadRegs(chip, EZ8_FIF_BASE, 4);
    FourRegs(chip);
    ControlStays(chip);
    assert regs == [ReadReg(chip, EZ8_FIF_BASE), chip.page] + regs[2..];
    var d := if state[1] != regs[1] then WriteReg(chip, EZ8_FIF_BASE + 1, state[1]) else chip;
    assert d == chip.(page := state[1]);
    if state[2..] == regs[2..] {
      ClockedReads(chip, hi, lo, EZ8_FIF_BASE + 2);
      ClockedReads(chip, hi, lo, EZ8_FIF_BASE + 3);
      ClockRegs(chip);
      assert state[2..] == [hi, lo];
      ClockIs(d, hi, lo);
      PageApart(chip, hi, lo, state[1]);
    }
  }

  lemma ClockedFrame(chip: Chip, hi: Byte, lo: Byte, flash: Image, lock: Lock, page: Byte)
    requires Clocked(chip, hi, lo) == chip
    ensures var c := chip.(flash := flash, lock := lock, page := page);
      Clocked(c, hi, lo) == c
  {
    assert Clocked(chip, hi, lo).core == chip.core;
  }

  lemma SavedPage(chip: Chip)
    ensures ReadRegs(chip, EZ8_FIF_BASE, 4)[1] == chip.page
  {}

  lemma ClockRegs(chip: Chip)
    ensures ReadRegs(chip, EZ8_FIF_BASE, 4)[2..] ==
      [ReadReg(chip, EZ8_FIF_BASE + 2), ReadReg(chip, EZ8_FIF_BASE + 3)]
  {
    hide ReadReg;
  }

  lemma PageApart(chip: Chip, hi: Byte, lo: Byte, page: Byte)
    ensures Clocked(chip.(page := page), hi, lo) == Clocked(chip, hi, lo).(page := page)
  {}

  // ----- Breakpoints -----

  datatype Breakpoint = Breakpoint(address: Address, data: Byte)

  predicate IsSet(bps: seq<Breakpoint>, address: Address) {
    exists k :: 0 <= k < |bps| && bps[k].address == address
  }

  function WithoutAt(bps: seq<Breakpoint>, k: nat): seq<Breakpoint>
    requires k < |bps|
  {
    bps[..k] + bps[k + 1..]
  }

  /** The first position of an address in the list, or its length. */
  function IndexOf(bps: seq<Breakpoint>, address: Address): (k: nat)
    ensures k <= |bps|
    ensures k < |bps| <==> IsSet(bps, address)
    ensures k < |bps| ==> bps[k].address == address
  {
    if bps == [] then 0 else if bps[0].address == address then 0 else
      var k := IndexOf(bps[1..], address);
      assert forall j :: 0 < j < |bps| ==> bps[j] == bps[1..][j - 1];
      1 + k
  }

  lemma {:induction false} IndexOfFirst(bps: seq<Breakpoint>, address: Address, k: nat)
    requires k <= |bps| && forall j :: 0 <= j < k ==> bps[j].address != address
    requires k < |bps| ==> bps[k].address == address
    ensures IndexOf(bps, address) == k
    decreases |bps|
  {
    if bps != [] && k > 0 {
      assert forall j :: 0 < j < |bps| ==> bps[j] == bps[1..][j - 1];
      IndexOfFirst(bps[1..], address, k - 1);
    }
  }

  /** Flash with every breakpoint's saved opcode put back: the program the user loaded. */
  function Logical(flash: Image, bps: seq<Breakpoint>): Image
    decreases |bps|
  {
    if bps == [] then flash else
      var n := |bps| - 1;
      Logical(flash, bps[..n])[bps[n].address := bps[n].data]
  }

  lemma LogicalNone(flash: Image)
    ensures Logical(flash, []) == flash
  {}

  /** A slice of it depends on that slice alone. */
  lemma {:induction false} LogicalLocal(a: Image, b: Image, bps: seq<Breakpoint>, lo: nat, hi: nat)
    requires lo <= hi <= EZ8MEM_SIZE
    ensures a[lo..hi] == b[lo..hi] ==> Logical(a, bps)[lo..hi] == Logical(b, bps)[lo..hi]
    decreases |bps|
  {
    if bps != [] {
      var n := |bps| - 1;
      LogicalLocal(a, b, bps[..n], lo, hi);
      SliceUpdate(Logical(a, bps[..n]), Logical(b, bps[..n]), bps[n].address, bps[n].data, lo, hi);
    }
  }

  lemma SliceUpdate(a: Image, b: Image, at: Address, v: Byte, lo: nat, hi: nat)
    requires lo <= hi <= EZ8MEM_SIZE
    ensures a[lo..hi] == b[lo..hi] ==> a[at := v][lo..hi] == b[at := v][lo..hi]
  {
    assert forall i :: lo <= i < hi ==> a[i] == a[lo..hi][i - lo] && b[i] == b[lo..hi][i - lo];
  }

  /** Patching the slice is patching the image, where the breakpoint lies inside it. */
  lemma LogicalStep(flash: Image, bps: seq<Breakpoint>, i: nat, address: nat, size: nat, data: seq<Byte>)
    requires i < |bps| && address + size <= EZ8MEM_SIZE && |data| == size
    ensures data == Logical(flash, bps[..i])[address..address + size] ==>
      Logical(flash, bps[..i + 1])[address..address + size] ==
      var offset := bps[i].address - address;
      if 0 <= offset < size then data[offset := bps[i].data] else data
  {
    assert bps[..i + 1][..i] == bps[..i];
  }
}
