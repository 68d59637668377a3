/** The debugger object of ez8dbg.cpp, ez8dbg_flash.cpp and ez8dbg_brk.cpp: cached chip
    registers, a 64K copy of program memory validated by checksum, and software breakpoints. */
module Ez8dbg {

  import opened Ez8
  import opened Device
  import opened FlashBlocks
  import opened Memory

  /** The bits of the cache word that the modelled operations use. */
  datatype Item = REVID | DBGCTL | DBGSTAT | PC | CRC | MEMCRC | MEMSIZE

  const DBGSTAT_RD_PROTECT: Byte := 0x20

  // ----- The debugger -----

  class Debugger {
    const dev: Ocd
    const mainMem: array<Byte>

    var cache: set<Item>
    var memcacheEnabled: bool
    var revid: nat
    var dbgctl: Byte
    var dbgstat: Byte
    var pc: Address
    var crc: bv16
    var memcrc: bv16
    var memsize: Byte
    var freqHi: Byte
    var freqLo: Byte
    var breakpoints: seq<Breakpoint>
    var tbreak: Address

    constructor (dev: Ocd)
      requires dev.Valid()
      ensures this.dev == dev && fresh(mainMem)
      ensures Coherent() && memcacheEnabled && breakpoints == [] && tbreak == 0 && cache == {}
      ensures mainMem[..] == Blank(EZ8MEM_SIZE)
    {
      this.dev := dev;
      mainMem := new Byte[EZ8MEM_SIZE](_ => 0xff);
      cache, memcacheEnabled, breakpoints, tbreak := {}, true, [], 0;
      revid, dbgctl, dbgstat, pc, crc, memcrc, memsize, freqHi, freqLo := 0, 0, 0, 0, 0, 0, 0, 0, 0;
    }

    /** The memory size the host derives from the chip's registers; 0 if it knows none. */
    ghost function Known(): (n: nat)
      ensures n <= EZ8MEM_SIZE && n % EZ8MEM_PAGESIZE == 0
    {
      MemorySize(dev.revid, dev.memsize)
    }

    ghost function Mem(): Image
      requires mainMem.Length == EZ8MEM_SIZE
      reads mainMem
    {
      mainMem[..]
    }

    /** Whatever is flagged as cached agrees with the chip. */
    ghost predicate Coherent()
      reads this, mainMem, dev
    {
      && mainMem.Length == EZ8MEM_SIZE && dev.Valid()
      && (REVID in cache ==> revid == dev.revid)
      && (MEMSIZE in cache ==> memsize == dev.memsize)
      && (DBGSTAT in cache ==> HasBit(dbgstat, DBGSTAT_RD_PROTECT) == dev.protect)
      && (DBGCTL in cache && HasBit(dbgctl, DBGCTL_DBG_MODE) ==> Halted(dev.chip))
      && (PC in cache ==> Halted(dev.chip) && pc == dev.chip.core.pc)
      && (CRC in cache ==> Halted(dev.chip) && crc == dev.FlashCrc())
      && (MEMCRC in cache ==> Known() != 0 && memcrc == ImageCrc(Mem(), Known()))
    }

    /** A reliable link to an unprotected chip that is halted and not recorded as running. */
    ghost predicate Ready()
      reads this, dev
    {
      && dev.reliable && !dev.protect && Halted(dev.chip)
      && !ShownRunning()
    }

    /** The control register is recorded, and as that of a running chip. */
    ghost predicate ShownRunning()
      reads this`cache, this`dbgctl
    {
      DBGCTL in cache && !HasBit(dbgctl, DBGCTL_DBG_MODE)
    }

    ghost predicate ShownHalted()
      reads this`cache, this`dbgctl
    {
      DBGCTL in cache && HasBit(dbgctl, DBGCTL_DBG_MODE)
    }

    /** The checksums make the host take its copy for the chip's memory. */
    ghost predicate Trusted()
      requires mainMem.Length == EZ8MEM_SIZE && dev.Valid()
      reads this, mainMem, dev
    {
      memcacheEnabled && Known() != 0 && dev.FlashCrc() == ImageCrc(Mem(), Known())
    }

    ghost predicate Synced()
      requires mainMem.Length == EZ8MEM_SIZE
      reads mainMem, dev
    {
      Mem()[..Known()] == dev.chip.flash[..Known()]
    }

    /** The copy and the chip's memory differ although their checksums agree. */
    ghost predicate Collision()
      requires mainMem.Length == EZ8MEM_SIZE && dev.Valid()
      reads this, mainMem, dev
    {
      Trusted() && !Synced()
    }

    /** Addresses below `end` lie in memory the host can vouch for. */
    ghost predicate InFlash(end: nat)
      reads this`memcacheEnabled
    {
      Known() == 0 || !memcacheEnabled || end <= Known()
    }

    /** How much of memory that is: all of it when the host does not go by checksums. */
    ghost function Limit(): (n: nat)
      reads this`memcacheEnabled
      ensures n <= EZ8MEM_SIZE && forall end: nat :: end <= n ==> InFlash(end)
    {
      if Known() == 0 || !memcacheEnabled then EZ8MEM_SIZE else Known()
    }

    /** A chip halted before is exactly as it was. */
    twostate predicate Still()
      reads dev
    {
      Halted(old(dev.chip)) ==> dev.chip == old(dev.chip)
    }

    twostate predicate Untouched()
      reads this, mainMem, dev
    {
      dev.chip == old(dev.chip) && breakpoints == old(breakpoints) && mainMem[..] == old(mainMem[..])
    }

    /** The chip with the clock registers as the host sets them. */
    ghost function AtClock(chip: Chip): Chip
      reads this`freqHi, this`freqLo
    {
      Clocked(chip, freqHi, freqLo)
    }

    // ----- Commands (ez8ocd.cpp) -----

    /** ez8ocd::new_command: a pending line error resets the link and drops the whole cache. */
    method NewCommand() returns (r: Result<()>, ghost pending: bool)
      modifies this`cache
      ensures r.Ok? ==> cache == if pending then {} else old(cache)
      ensures r.Fail? ==> pending && cache == old(cache)
      ensures dev.reliable ==> !pending
    {
      pending := false;
      if !dev.reliable {
        var waiting: bool := *;
        pending := waiting;
        if waiting {
          var resetFails: bool := *;
          if resetFails {
            return Fail(LinkFailed), pending;
          }
          cache := {};
        }
      }
      return Ok(()), pending;
    }

    /** A command that reads; a chip that is running moves on meanwhile. */
    method Query() returns (r: Result<()>)
      modifies this`cache, dev`chip
      ensures cache == old(cache) || cache == {}
      ensures Still()
      ensures dev.reliable ==> r.Ok? && cache == old(cache)
    {
      dev.Tick();
      var _, pending :- NewCommand();
      var fate := dev.Transmit();
      if fate.Lost? {
        return Fail(LinkFailed);
      }
      return Ok(());
    }

    method OcdResetLink() returns (r: Result<()>)
      modifies dev`chip
      ensures Still()
      ensures dev.reliable ==> r.Ok?
    {
      dev.Tick();
      var fate := dev.Transmit();
      return if fate.Arrives? then Ok(()) else Fail(LinkFailed);
    }

    /** ez8ocd::wr_mem: programming takes effect while the flash controller is unlocked. */
    method OcdWrMem(address: nat, data: seq<Byte>) returns (r: Result<()>)
      requires address + |data| <= EZ8MEM_SIZE
      modifies dev`chip, dev`writes
      ensures dev.chip == old(dev.chip).(flash := dev.chip.flash)
      ensures r.Ok? && data != [] ==> dev.writes == old(dev.writes) + [(address, data)]
      ensures r.Ok? && old(dev.chip).lock.Unlocked? ==> dev.chip.flash == Program(old(dev.chip).flash, address, data)
      ensures dev.reliable ==> r.Ok?
    {
      hide And;
      if |data| > 0 {
        var fate := dev.Transmit();
        var n := if fate.Lost? && fate.n < |data| then fate.n else |data|;
        dev.writes := dev.writes + [(address, data)];
        if dev.chip.lock.Unlocked? {
          dev.chip := dev.chip.(flash := Program(dev.chip.flash, address, data[..n]));
        }
        assert fate.Arrives? ==> data[..n] == data;
        return if fate.Arrives? then Ok(()) else Fail(LinkFailed);
      }
      assert Program(dev.chip.flash, address, data) == dev.chip.flash;
      return Ok(());
    }

    /** ez8ocd::rd_mem into the host's copy. */
    method OcdRdMem(address: nat, size: nat) returns (r: Result<()>)
      requires address + size <= EZ8MEM_SIZE == mainMem.Length
      modifies mainMem
      ensures forall i :: 0 <= i < EZ8MEM_SIZE && !(address <= i < address + size) ==> mainMem[i] == old(mainMem[i])
      ensures r.Ok? ==> mainMem[..] == Overlay(old(mainMem[..]), address, dev.chip.flash[address..address + size])
      ensures dev.reliable ==> r.Ok?
    {
      var fate := dev.Transmit();
      var n := if fate.Lost? && fate.n < size then fate.n else size;
      forall i | address <= i < address + n {
        mainMem[i] := dev.chip.flash[i];
      }
      return if fate.Arrives? then Ok(()) else Fail(LinkFailed);
    }

    // ----- Cached registers (ez8dbg.cpp) -----

    method CachedRevid() returns (r: Result<nat>)
      requires Coherent()
      modifies `cache, `revid, dev`chip
      ensures Coherent() && Still() && cache <= old(cache) + {REVID}
      ensures r.Ok? ==> r.value == dev.revid
      ensures r.Ok? ==> REVID in cache && revid == r.value
      ensures dev.reliable ==> r.Ok? && old(cache) <= cache
    {
      hide ImageCrc, MemorySize, HasBit;
      if REVID !in cache {
        var _ :- Query();
        revid := dev.revid;
        cache := cache + {REVID};
      }
      return Ok(revid);
    }

    method CachedDbgctl() returns (r: Result<Byte>)
      requires Coherent()
      modifies `cache, `dbgctl, dev`chip
      ensures Coherent() && Still() && cache <= old(cache) + {DBGCTL}
      ensures r.Ok? ==> r.value == dbgctl && DBGCTL in cache
      ensures DBGCTL in old(cache) ==> r == Ok(old(dbgctl)) && dev.chip == old(dev.chip)
      ensures r.Ok? && DBGCTL !in old(cache) && Halted(old(dev.chip)) ==> dbgctl == dev.chip.dbgctl
      ensures r.Ok? && DBGCTL !in old(cache) && !HasBit(dbgctl, DBGCTL_DBG_MODE) ==> PC !in cache && CRC !in cache
      ensures dev.reliable ==> r.Ok? && old(cache) <= cache
      ensures old(Ready()) ==> Ready()
    {
      hide ImageCrc, MemorySize, HasBit;
      if DBGCTL !in cache {
        var _ :- Query();
        dbgctl := dev.chip.dbgctl;
        cache := cache + {DBGCTL};
      }
      return Ok(dbgctl);
    }

    method CachedDbgstat() returns (r: Result<Byte>)
      requires Coherent()
      modifies `cache, `dbgstat, dev`chip
      ensures Coherent() && Still() && cache <= old(cache) + {DBGSTAT}
      ensures r.Ok? ==> HasBit(r.value, DBGSTAT_RD_PROTECT) == dev.protect
      ensures r.Ok? ==> DBGSTAT in cache && dbgstat == r.value
      ensures dev.reliable ==> r.Ok? && old(cache) <= cache
    {
      hide ImageCrc, MemorySize;
      if DBGSTAT !in cache {
        var _ :- Query();
        dbgstat := if dev.protect then DBGSTAT_RD_PROTECT else 0;
        cache := cache + {DBGSTAT};
      }
      return Ok(dbgstat);
    }

    /** state(state_stopped) */
    method StateStopped() returns (r: Result<bool>)
      requires Coherent()
      modifies `cache, `dbgctl, dev`chip
      ensures Coherent() && Still() && cache <= old(cache) + {DBGCTL}
      ensures r == Ok(true) ==> Halted(dev.chip)
      ensures r == Ok(false) ==> ShownRunning()
      ensures dev.reliable ==> r.Ok? && old(cache) <= cache
      ensures old(ShownRunning()) ==> r == Ok(false) && dev.chip == old(dev.chip)
      ensures r.Ok? && Halted(old(dev.chip)) && !old(ShownRunning()) ==> r.value
      ensures old(Ready()) ==> r == Ok(true) && Ready()
    {
      hide ImageCrc, MemorySize, HasBit;
      var ctl :- CachedDbgctl();
      return Ok(HasBit(ctl, DBGCTL_DBG_MODE));
    }

    /** state(state_protected) */
    method StateProtected() returns (r: Result<bool>)
      requires Coherent()
      modifies `cache, `dbgstat, dev`chip
      ensures Coherent() && Still() && cache <= old(cache) + {DBGSTAT}
      ensures r.Ok? ==> r.value == dev.protect
      ensures dev.reliable ==> r.Ok? && old(cache) <= cache
    {
      hide ImageCrc, MemorySize, HasBit;
      var stat :- CachedDbgstat();
      return Ok(HasBit(stat, DBGSTAT_RD_PROTECT));
    }

    /** The two checks most operations open with. */
    method CheckAccess() returns (r: Result<()>)
      requires Coherent()
      modifies `cache, `dbgctl, `dbgstat, dev`chip
      ensures Coherent() && Still() && cache <= old(cache) + {DBGCTL, DBGSTAT}
      ensures r.Ok? ==> Halted(dev.chip) && !dev.protect
      ensures old(ShownRunning()) ==> r == Fail(Running) && Untouched()
      ensures dev.protect ==> r.Fail? && (Halted(old(dev.chip)) ==> Untouched())
      ensures old(Ready()) ==> r.Ok? && Ready()
    {
      hide ImageCrc, MemorySize, HasBit;
      var stopped :- StateStopped();
      if !stopped {
        return Fail(Running);
      }
      var protected :- StateProtected();
      if protected {
        return Fail(Protected);
      }
      return Ok(());
    }

    method CachedMemsize() returns (r: Result<Byte>)
      requires Coherent()
      modifies `cache, `memsize, dev`chip
      ensures Coherent() && Still() && cache <= old(cache) + {MEMSIZE}
      ensures r.Ok? ==> MEMSIZE in cache && r.value == memsize == dev.memsize
      ensures dev.reliable ==> r.Ok? && old(cache) <= cache
    {
      hide ImageCrc, MemorySize, HasBit;
      if MEMSIZE !in cache {
        var _ :- Query();
        memsize := dev.memsize;
        cache := cache + {MEMSIZE};
      }
      return Ok(memsize);
    }

    method MemorySizeNow() returns (r: Result<nat>)
      requires Coherent()
      modifies `cache, `revid, `memsize, dev`chip
      ensures Coherent() && Still() && cache <= old(cache) + {REVID, MEMSIZE}
      ensures r.Ok? ==> r.value == Known()
      ensures r.Ok? && Known() != 0 ==> MEMSIZE in cache
      ensures dev.reliable ==> r.Ok?
    {
      hide ImageCrc, MemorySize, HasBit;
      var rev :- CachedRevid();
      SizeUnknown(rev, 0, dev.memsize);
      if MemorySize(rev, 0) == 0 {
        return Ok(0);
      }
      var code :- CachedMemsize();
      return Ok(MemorySize(rev, code));
    }

    method CachedMemcrc() returns (r: Result<bv16>)
      requires Coherent()
      modifies `cache, `revid, `memsize, `memcrc, dev`chip
      ensures Coherent() && Still() && cache <= old(cache) + {REVID, MEMSIZE, MEMCRC}
      ensures r.Ok? ==> r.value == memcrc && (Known() != 0 ==> memcrc == ImageCrc(Mem(), Known()))
      ensures r.Ok? ==> if Known() != 0 then MEMCRC in cache else r.value == 0
      ensures dev.reliable ==> r.Ok?
    {
      hide ImageCrc, MemorySize, HasBit;
      if MEMCRC !in cache {
        var size :- MemorySizeNow();
        if size != 0 {
          memcrc := ImageCrc(mainMem[..], size);
          cache := cache + {MEMCRC};
        } else {
          memcrc := 0;
        }
      }
      return Ok(memcrc);
    }

    method RdCrc() returns (r: Result<bv16>)
      requires Coherent()
      modifies `cache, `dbgctl, `crc, dev`chip
      ensures Coherent() && Still() && cache <= old(cache) + {DBGCTL, CRC}
      ensures r.Ok? ==> r.value == crc == dev.FlashCrc() && Halted(dev.chip)
      ensures r.Ok? ==> CRC in cache
      ensures old(ShownRunning()) ==> r == Fail(Running) && Untouched()
      ensures old(Ready()) ==> r.Ok? && Ready()
    {
      hide ImageCrc, MemorySize, HasBit;
      var stopped :- StateStopped();
      if !stopped {
        return Fail(Running);
      }
      var _ :- Query();
      crc := ImageCrc(dev.chip.flash, dev.size);
      cache := cache + {CRC};
      return Ok(crc);
    }

    method CachedCrc() returns (r: Result<bv16>)
      requires Coherent()
      modifies `cache, `dbgctl, `crc, dev`chip
      ensures Coherent() && Still() && cache <= old(cache) + {DBGCTL, CRC}
      ensures r.Ok? ==> r.value == crc == dev.FlashCrc() && Halted(dev.chip)
      ensures r.Ok? ==> CRC in cache
      ensures old(Ready()) ==> r.Ok? && Ready()
    {
      hide ImageCrc, MemorySize, HasBit;
      if CRC !in cache {
        var _ :- RdCrc();
      }
      return Ok(crc);
    }

    method RdPc() returns (r: Result<Address>)
      requires Coherent()
      modifies `cache, `dbgctl, `dbgstat, `pc, dev`chip
      ensures Coherent() && Still() && cache <= old(cache) + {DBGCTL, DBGSTAT, PC}
      ensures r.Ok? ==> r.value == pc == dev.chip.core.pc && Halted(dev.chip) && !dev.protect
      ensures r.Ok? ==> PC in cache
      ensures old(ShownRunning()) ==> r == Fail(Running) && Untouched()
      ensures dev.protect ==> r.Fail? && (Halted(old(dev.chip)) ==> Untouched())
      ensures old(Ready()) ==> r.Ok? && Ready()
    {
      hide ImageCrc, MemorySize, HasBit;
      var _ :- CheckAccess();
      var _ :- Query();
      pc := dev.chip.core.pc;
      cache := cache + {PC};
      return Ok(pc);
    }

    method CachedPc() returns (r: Result<Address>)
      requires Coherent()
      modifies `cache, `dbgctl, `dbgstat, `pc, dev`chip
      ensures Coherent() && Still() && cache <= old(cache) + {DBGCTL, DBGSTAT, PC}
      ensures r.Ok? ==> r.value == pc == dev.chip.core.pc && Halted(dev.chip)
      ensures r.Ok? ==> PC in cache
      ensures PC !in old(cache) && dev.protect ==> r.Fail?
      ensures PC in old(cache) ==> r == Ok(old(pc)) && dev.chip == old(dev.chip)
      ensures old(Ready()) ==> r.Ok? && Ready()
    {
      hide ImageCrc, MemorySize, HasBit;
      if PC !in cache {
        var _ :- RdPc();
      }
      return Ok(pc);
    }

    method WrPc(address: Address) returns (r: Result<()>)
      requires Coherent()
      modifies `cache, `dbgctl, `dbgstat, `pc, dev`chip
      ensures Coherent()
      ensures Halted(old(dev.chip)) ==>
        dev.chip == old(dev.chip) || dev.chip == old(dev.chip).(core := old(dev.chip).core.(pc := address))
      ensures r.Ok? ==> pc == dev.chip.core.pc == address
      ensures r.Ok? && Halted(old(dev.chip)) ==>
        dev.chip == old(dev.chip).(core := old(dev.chip).core.(pc := address))
      ensures old(ShownRunning()) ==> r == Fail(Running) && Untouched()
      ensures dev.protect ==> r.Fail? && (Halted(old(dev.chip)) ==> Untouched())
      ensures old(Ready()) ==> r.Ok? && Ready()
    {
      hide ImageCrc, MemorySize, HasBit;
      var _ :- CheckAccess();
      cache := cache - {PC};
      var _, pending :- NewCommand();
      var fate := dev.Transmit();
      if fate.Arrives? || fate.n > 0 {
        dev.chip := dev.chip.(core := dev.chip.core.(pc := address));
      }
      if fate.Lost? {
        return Fail(LinkFailed);
      }
      var now :- CachedPc();
      if now != address {
        return Fail(VerifyFailed);
      }
      return Ok(());
    }

    // ----- Register file and flash controller -----

    method RdRegs(address: nat, size: nat) returns (r: Result<seq<Byte>>)
      requires Coherent() && size != 0
      modifies `cache, `dbgctl, `dbgstat, dev`chip
      ensures Coherent() && Still() && cache <= old(cache) + {DBGCTL, DBGSTAT}
      ensures r.Ok? ==> r.value == ReadRegs(dev.chip, address, size) && Halted(dev.chip)
      ensures r.Ok? ==> address + size <= EZ8REG_SIZE && (address < EZ8_PERIPHERIAL_BASE ==> !dev.protect)
      ensures old(ShownRunning()) ==> r == Fail(Running) && Untouched()
      ensures dev.reliable && Halted(old(dev.chip)) && !old(ShownRunning()) ==>
        (r.Ok? <==> address + size <= EZ8REG_SIZE && (address < EZ8_PERIPHERIAL_BASE ==> !dev.protect))
      ensures old(Ready()) ==> Ready() && (address + size <= EZ8REG_SIZE ==> r.Ok?)
    {
      hide ImageCrc, MemorySize, HasBit;
      var stopped :- StateStopped();
      if !stopped {
        return Fail(Running);
      }
      if address < EZ8_PERIPHERIAL_BASE {
        var protected :- StateProtected();
        if protected {
          return Fail(Protected);
        }
      }
      if address + size > EZ8REG_SIZE {
        return Fail(OutOfRange);
      }
      var _ :- Query();
      return Ok(ReadRegs(dev.chip, address, size));
    }

    /** ez8ocd::wr_regs */
    method OcdWrRegs(address: nat, data: seq<Byte>) returns (r: Result<()>)
      requires Coherent() && data != [] && address + |data| <= EZ8REG_SIZE
      requires Halted(dev.chip) && (address <= EZ8_FIF_BASE < address + |data| ==> CRC !in cache)
      modifies `cache, dev`chip
      ensures Coherent() && cache <= old(cache) && Halted(dev.chip) && dev.chip.core.pc == old(dev.chip).core.pc
      ensures !(address <= EZ8_FIF_BASE < address + |data|) ==> dev.chip.flash == old(dev.chip).flash
      ensures r.Ok? ==> dev.chip == WriteRegs(old(dev.chip), address, data)
      ensures dev.reliable ==> r.Ok? && cache == old(cache)
    {
      hide ImageCrc, MemorySize, HasBit, WriteRegs;
      var _, pending :- NewCommand();
      var fate := dev.Transmit();
      var n := if fate.Lost? && fate.n < |data| then fate.n else |data|;
      WriteRegsFrame(dev.chip, address, data[..n]);
      dev.chip := WriteRegs(dev.chip, address, data[..n]);
      assert fate.Arrives? ==> data[..n] == data;
      return if fate.Arrives? then Ok(()) else Fail(LinkFailed);
    }

    /** A range that passes the 64K test but not the register file's end runs into the assertion
        of ez8ocd::wr_regs. */
    method WrRegs(address: nat, data: seq<Byte>) returns (r: Result<()>)
      requires Coherent() && data != []
      requires address + |data| <= EZ8REG_SIZE || address + |data| > EZ8MEM_SIZE
      modifies `cache, `dbgctl, `dbgstat, dev`chip
      ensures Coherent() && cache <= old(cache) + {DBGCTL, DBGSTAT}
      ensures address <= EZ8_FIF_BASE < address + |data| && r.Ok? ==> CRC !in cache
      ensures Halted(old(dev.chip)) && !(address <= EZ8_FIF_BASE < address + |data|) ==>
        dev.chip.flash == old(dev.chip).flash
      ensures Halted(old(dev.chip)) ==> Halted(dev.chip)
      ensures address + |data| > EZ8MEM_SIZE ==> r.Fail? && Still()
      ensures old(ShownRunning()) ==> r == Fail(Running) && Untouched()
      ensures dev.protect && address < EZ8_PERIPHERIAL_BASE ==> r.Fail? && (Halted(old(dev.chip)) ==> Untouched())
      ensures dev.reliable && Halted(old(dev.chip)) && !old(ShownRunning()) ==>
        (r.Ok? <==> address + |data| <= EZ8REG_SIZE && (address < EZ8_PERIPHERIAL_BASE ==> !dev.protect))
      ensures old(Ready()) && !(address <= EZ8_FIF_BASE < address + |data|) ==> old(cache) <= cache
      ensures r.Ok? && Halted(old(dev.chip)) ==> dev.chip == WriteRegs(old(dev.chip), address, data)
      ensures old(Ready()) ==> Ready()
      ensures old(Ready()) && address + |data| <= EZ8REG_SIZE ==> dev.chip == WriteRegs(old(dev.chip), address, data)
      ensures old(Ready()) && address + |data| <= EZ8REG_SIZE ==> r.Ok?
    {
      hide ImageCrc, MemorySize, WriteRegs, HasBit, ReadReg;
      var stopped :- StateStopped();
      if !stopped {
        return Fail(Running);
      }
      if address + |data| > EZ8MEM_SIZE {
        return Fail(OutOfRange);
      }
      if address < EZ8_PERIPHERIAL_BASE {
        var protected :- StateProtected();
        if protected {
          return Fail(Protected);
        }
      }
      if address <= EZ8_FIF_BASE && address + |data| > EZ8_FIF_BASE {
        cache := cache - {CRC};
      }
      ReadBack(dev.chip, address, data);
      var _ :- OcdWrRegs(address, data);
      r := CheckBack(address, data);
    }

    /** wr_regs reads back what lies below the peripherals. */
    method CheckBack(address: nat, data: seq<Byte>) returns (r: Result<()>)
      requires Coherent() && Halted(dev.chip) && address + |data| <= EZ8REG_SIZE
      modifies `cache, dev`chip
      ensures Coherent() && Still() && cache <= old(cache)
      ensures old(Ready()) ==> Ready()
      ensures dev.reliable ==> cache == old(cache)
      ensures r.Ok? || dev.reliable ==>
        var size := if address < EZ8_PERIPHERIAL_BASE < address + |data| then EZ8_PERIPHERIAL_BASE - address
                    else |data|;
        (r.Ok? <==> address >= EZ8_PERIPHERIAL_BASE || ReadRegs(dev.chip, address, size) == data[..size])
    {
      hide ImageCrc, MemorySize, HasBit, ReadReg;
      var size := if address >= EZ8_PERIPHERIAL_BASE then 0
                  else if address + |data| > EZ8_PERIPHERIAL_BASE then EZ8_PERIPHERIAL_BASE - address else |data|;
      if size > 0 {
        var _ :- Query();
        if ReadRegs(dev.chip, address, size) != data[..size] {
          return Fail(VerifyFailed);
        }
      }
      return Ok(());
    }

    lemma ReadBack(chip: Chip, address: nat, data: seq<Byte>)
      requires address + |data| <= EZ8REG_SIZE
      ensures address < EZ8_PERIPHERIAL_BASE ==>
        var size := if EZ8_PERIPHERIAL_BASE < address + |data| then EZ8_PERIPHERIAL_BASE - address else |data|;
        ReadRegs(WriteRegs(chip, address, data), address, size) == data[..size]
    {
      hide ReadReg, WriteRegs;
      if address < EZ8_PERIPHERIAL_BASE {
        var size := if EZ8_PERIPHERIAL_BASE < address + |data| then EZ8_PERIPHERIAL_BASE - address else |data|;
        forall i | 0 <= i < size
          ensures ReadReg(WriteRegs(chip, address, data), address + i) == data[i]
        {
          WrittenReads(chip, address, data, address + i);
        }
      }
    }

    method FlashSetup(page: Byte) returns (r: Result<()>)
      requires Coherent()
      modifies `cache, `dbgctl, `dbgstat, dev`chip
      ensures Coherent() && cache <= old(cache) + {DBGCTL, DBGSTAT}
      ensures r.Ok? ==> CRC !in cache
      ensures old(ShownRunning()) ==> r == Fail(Running) && Untouched()
      ensures Halted(old(dev.chip)) ==> Halted(dev.chip)
      ensures old(Ready()) ==> r.Ok? && Ready()
      ensures r.Ok? && Halted(old(dev.chip)) ==>
        dev.chip == AtClock(old(dev.chip)).(lock := Unlocked, page := page)
    {
      hide ImageCrc, MemorySize, WriteRegs, HasBit, ReadReg;
      var stopped :- StateStopped();
      if !stopped {
        return Fail(Running);
      }
      ghost var before := dev.chip;
      var _ :- WrRegs(EZ8_FIF_BASE, [EZ8_FIF_LOCK, page, freqHi, freqLo]);
      var _ :- WrRegs(EZ8_FIF_BASE, [EZ8_FIF_UNLOCK_0]);
      var _ :- WrRegs(EZ8_FIF_BASE, [EZ8_FIF_UNLOCK_1]);
      SetupUnlocks(before, page, freqHi, freqLo);
      return Ok(());
    }

    method FlashLock() returns (r: Result<()>)
      requires Coherent()
      modifies `cache, `dbgctl, `dbgstat, dev`chip
      ensures Coherent() && cache <= old(cache) + {DBGCTL, DBGSTAT}
      ensures r.Ok? ==> CRC !in cache
      ensures Halted(old(dev.chip)) ==> Halted(dev.chip)
      ensures old(Ready()) ==> r.Ok? && Ready()
      ensures r.Ok? && Halted(old(dev.chip)) ==> dev.chip == old(dev.chip).(lock := Locked)
    {
      hide ImageCrc, MemorySize, WriteRegs, HasBit, ReadReg;
      WriteOne(dev.chip, EZ8_FIF_LOCK);
      r := WrRegs(EZ8_FIF_BASE, [EZ8_FIF_LOCK]);
    }

    method FlashPageErase(page: nat) returns (r: Result<()>)
      requires Coherent() && page < 0x80
      modifies `cache, `dbgctl, `dbgstat, dev`chip
      ensures Coherent() && cache <= old(cache) + {DBGCTL, DBGSTAT}
      ensures Halted(old(dev.chip)) ==> Halted(dev.chip)
      ensures old(Ready()) ==> r.Ok? && Ready()
      ensures r.Ok? ==> CRC !in cache
      ensures old(ShownRunning()) ==> r == Fail(Running) && Untouched()
      ensures dev.protect ==> r.Fail? && (Halted(old(dev.chip)) ==> Untouched())
      ensures r.Ok? && Halted(old(dev.chip)) ==>
        dev.chip == AtClock(old(dev.chip)).(flash := ErasePage(old(dev.chip).flash, page), lock := Locked,
                                            page := page as Byte)
    {
      hide ImageCrc, MemorySize, WriteRegs, HasBit, ReadReg, ErasePage;
      var _ :- CheckAccess();
      var _ :- FlashSetup(page as Byte);
      EraseSelected(dev.chip, page);
      var _ :- WrRegs(EZ8_FIF_BASE, [EZ8_FIF_PAGE_ERASE]);
      StatusIdle(dev.chip);
      var status :- RdRegs(EZ8_FIF_BASE, 1);
      if HasBit(status[0], 0x10) {
        return Fail(FlashBusy);
      }
      return Ok(());
    }

    method SaveFlashState() returns (r: Result<seq<Byte>>)
      requires Coherent()
      modifies `cache, `dbgctl, `dbgstat, dev`chip
      ensures Coherent() && Still() && cache <= old(cache) + {DBGCTL, DBGSTAT}
      ensures r.Ok? ==> r.value == ReadRegs(dev.chip, EZ8_FIF_BASE, 4) && r.value[0] <= 4
      ensures old(Ready()) ==> r.Ok? && Ready()
    {
      hide ImageCrc, MemorySize;
      r := RdRegs(EZ8_FIF_BASE, 4);
    }

    /** As written: the comparisons look at the current control register, not the saved one,
        and the clock registers are rewritten when they have not changed. */
    method RestoreFlashState(state: seq<Byte>) returns (r: Result<()>)
      requires Coherent() && |state| == 4
      modifies `cache, `dbgctl, `dbgstat, dev`chip
      ensures Coherent() && cache <= old(cache) + {DBGCTL, DBGSTAT}
      ensures Halted(old(dev.chip)) ==> Halted(dev.chip)
      ensures old(Ready()) ==> Ready() && (r.Ok? <==> state[0] <= 4)
      ensures r.Ok? && Halted(old(dev.chip)) ==> dev.chip == Restored(old(dev.chip), state)
    {
      hide ImageCrc, MemorySize, WriteRegs, HasBit, ReadReg, RestoredControl;
      StatusIdle(dev.chip);
      var regs :- RdRegs(EZ8_FIF_BASE, 4);
      if state[0] > 0x04 || regs[0] > 0x04 {
        return Fail(FlashBusy);
      }
      if state[0] != regs[0] {
        var _ :- RestoreControl(regs[0]);
      }
      if state[1] != regs[1] {
        WriteOneReg(dev.chip, EZ8_FIF_BASE + 1, state[1]);
        assert state[1..2] == [state[1]];
        var _ :- WrRegs(EZ8_FIF_BASE + 1, state[1..2]);
        if HasBit(state[1], 0x80) {
          var _ :- Query();
        }
      }
      if state[2..] == regs[2..] {
        var _ :- WrRegs(EZ8_FIF_BASE + 2, state[2..]);
      }
      return Ok(());
    }

    method RestoreControl(control: Byte) returns (r: Result<()>)
      requires Coherent()
      modifies `cache, `dbgctl, `dbgstat, dev`chip
      ensures Coherent() && cache <= old(cache) + {DBGCTL, DBGSTAT}
      ensures Halted(old(dev.chip)) ==> Halted(dev.chip)
      ensures old(Ready()) ==> r.Ok? && Ready()
      ensures r.Ok? && Halted(old(dev.chip)) ==> dev.chip == RestoredControl(old(dev.chip), control)
    {
      hide ImageCrc, MemorySize, HasBit, Control;
      var _ :- RestoreWrite(EZ8_FIF_LOCK);
      if HasBit(control, 0x03) {
        var _ :- RestoreWrite(EZ8_FIF_UNLOCK_0);
        if HasBit(control, 0x02) {
          var _ :- RestoreWrite(EZ8_FIF_UNLOCK_1);
        }
      } else if HasBit(control, 0x04) {
        var _ :- RestoreWrite(EZ8_FIF_PROT_REG);
      }
      return Ok(());
    }

    method RestoreWrite(v: Byte) returns (r: Result<()>)
      requires Coherent()
      modifies `cache, `dbgctl, `dbgstat, dev`chip
      ensures Coherent() && cache <= old(cache) + {DBGCTL, DBGSTAT}
      ensures Halted(old(dev.chip)) ==> Halted(dev.chip)
      ensures old(Ready()) ==> r.Ok? && Ready()
      ensures r.Ok? && Halted(old(dev.chip)) ==> dev.chip == Control(old(dev.chip), v)
    {
      hide ImageCrc, MemorySize, WriteRegs, HasBit, ReadReg, Control;
      WriteOne(dev.chip, v);
      r := WrRegs(EZ8_FIF_BASE, [v]);
    }

    // ----- Program memory (ez8dbg_flash.cpp) -----

    /** The test that lets the host use its copy in place of the chip's memory. */
    method CacheAgrees() returns (r: Result<bool>)
      requires Coherent()
      modifies `cache, `revid, `dbgctl, `memsize, `crc, `memcrc, dev`chip
      ensures Coherent() && Still() && cache <= old(cache) + {REVID, DBGCTL, MEMSIZE, CRC, MEMCRC}
      ensures old(Ready()) ==> r.Ok? && Ready()
      ensures r.Ok? && Halted(dev.chip) ==> (r.value <==> Trusted())
      ensures r.Ok? && memcacheEnabled && Known() != 0 ==> (r.value <==> crc == memcrc)
    {
      hide ImageCrc, MemorySize, HasBit;
      if !memcacheEnabled {
        return Ok(false);
      }
      var length :- MemorySizeNow();
      if length == 0 {
        return Ok(false);
      }
      var remote :- CachedCrc();
      var local :- CachedMemcrc();
      return Ok(remote == local);
    }

    /** Read the chip itself, into the copy and through it. */
    method ReadChip(address: nat, size: nat) returns (r: Result<seq<Byte>>)
      requires Coherent() && Halted(dev.chip) && !dev.protect && address + size <= EZ8MEM_SIZE
      modifies `cache, mainMem, dev`chip
      ensures Coherent() && Still() && cache <= old(cache)
      ensures old(Ready()) ==> r.Ok? && Ready()
      ensures r.Ok? ==>
        && r.value == dev.chip.flash[address..address + size]
        && Mem() == Overlay(old(Mem()), address, r.value)
      ensures r.Ok? && old(Synced()) ==> Synced()
    {
      hide ImageCrc, MemorySize, HasBit, Overlay;
      cache := cache - {MEMCRC};
      OverlaySynced(mainMem[..], dev.chip.flash, Known(), address, size);
      OverlaySlice(mainMem[..], address, dev.chip.flash[address..address + size]);
      var _ :- OcdRdMem(address, size);
      return Ok(mainMem[address..address + size]);
    }

    method RdMem(address: nat, size: nat) returns (r: Result<seq<Byte>>)
      requires Coherent()
      modifies `cache, `revid, `dbgctl, `dbgstat, `memsize, `crc, `memcrc, mainMem, dev`chip
      ensures Coherent() && Still() && cache <= old(cache) + {REVID, DBGCTL, DBGSTAT, MEMSIZE, CRC, MEMCRC}
      ensures address + size > EZ8MEM_SIZE ==> r == Fail(OutOfRange) && mainMem[..] == old(mainMem[..])
      ensures old(ShownRunning()) && address + size <= EZ8MEM_SIZE ==> r == Fail(Running) && Untouched()
      ensures dev.protect ==> r.Fail? && (Halted(old(dev.chip)) ==> Untouched())
      ensures r.Ok? ==> Halted(dev.chip) && |r.value| == size
      ensures old(Ready()) ==> Ready() && (r.Ok? <==> address + size <= EZ8MEM_SIZE)
      // whatever state an error left behind, and whatever the link may lose
      ensures r.Ok? && InFlash(address + size) && !Collision() ==>
        r.value == dev.chip.flash[address..address + size]
      ensures r.Ok? && Halted(old(dev.chip)) && InFlash(address + size) && !old(Collision()) ==>
        r.value == dev.chip.flash[address..address + size]
      // with the chip halted before
      ensures r.Ok? && Halted(old(dev.chip)) && old(Trusted()) ==>
        && r.value == CacheSlice(old(Mem()), Known(), address, size) && Mem() == old(Mem())
        && (Known() <= address ==> r.value == Blank(size))
        && (address < Known() < address + size ==>
            r.value == old(Mem())[address..Known()] + Blank(address + size - Known()))
      ensures r.Ok? && Halted(old(dev.chip)) && !old(Trusted()) ==>
        && r.value == dev.chip.flash[address..address + size]
        && Mem() == Overlay(old(Mem()), address, r.value)
      ensures r.Ok? && Halted(old(dev.chip)) && memcacheEnabled && Known() != 0 ==>
        (old(Trusted()) <==> crc == memcrc)
      ensures old(Synced()) && Halted(old(dev.chip)) && r.Ok? ==> Synced()
      ensures old(Synced()) && old(Ready()) ==> Synced()
    {
      hide ImageCrc, MemorySize, HasBit, Overlay, CacheSlice;
      if address + size > EZ8MEM_SIZE {
        return Fail(OutOfRange);
      }
      var _ :- CheckAccess();
      var trusted :- CacheAgrees();
      if trusted {
        var length :- MemorySizeNow();
        CacheSliceSynced(mainMem[..], dev.chip.flash, length, address, size);
        CacheSliceBeyond(mainMem[..], length, address, size);
        return Ok(CacheSlice(mainMem[..], length, address, size));
      }
      r := ReadChip(address, size);
    }

    /** Send the blocks of `buff` that are not erased, and nothing else. */
    method WriteFlash(address: nat, buff: seq<Byte>) returns (r: Result<()>, ghost blocks: seq<Block>)
      requires Coherent() && CRC !in cache && address + |buff| <= EZ8MEM_SIZE
      modifies `cache, `dbgctl, `dbgstat, dev`chip, dev`writes
      ensures Coherent() && CRC !in cache && cache <= old(cache) + {DBGCTL, DBGSTAT}
      ensures Halted(old(dev.chip)) ==> dev.chip == old(dev.chip).(flash := dev.chip.flash)
      ensures old(Ready()) ==> r.Ok? && Ready()
      ensures old(ShownRunning()) ==> r == Fail(Running) && Untouched() && dev.writes == old(dev.writes)
      ensures dev.protect ==> r.Fail? && dev.writes == old(dev.writes)
      ensures r.Ok? ==> Cover(buff, |buff|, blocks)
      ensures r.Ok? && (forall b :: b in blocks ==> b.start <= b.end <= |buff|) ==>
        dev.writes == old(dev.writes) + Commands(address, buff, blocks)
      ensures r.Ok? && Halted(old(dev.chip)) && old(dev.chip).lock.Unlocked? ==>
        dev.chip.flash == Program(old(dev.chip).flash, address, buff)
    {
      hide ImageCrc, MemorySize, HasBit, Cover, IsBlock, Erased, Filled, Program, Commands, ProgramBlocks;
      blocks := [];
      ghost var ready := Ready();
      ghost var before := dev.chip;
      var _ :- CheckAccess();
      var next := MemNChr(buff, 0);
      CoverStart(before.flash, address, buff, next);
      while next < |buff|
        invariant Coherent() && CRC !in cache && cache <= old(cache) + {DBGCTL, DBGSTAT}
        invariant Halted(before) ==> dev.chip == before.(flash := dev.chip.flash)
        invariant next <= |buff| && (next < |buff| ==> Filled(buff[next])) && Cover(buff, next, blocks)
        invariant next < |buff| && blocks != [] ==> blocks[|blocks| - 1].end + BLOCK_SIZE <= next
        invariant forall b :: b in blocks ==> b.start <= b.end <= |buff|
        invariant ready ==> Ready()
        invariant dev.writes == old(dev.writes) + Commands(address, buff, blocks)
        invariant Halted(before) && before.lock.Unlocked? ==>
          dev.chip.flash == ProgramBlocks(before.flash, address, buff, blocks)
        decreases |buff| - next
      {
        var start, end := next, 0;
        end, next := FindBlock(buff, start);
        BlockRange(buff, Block(start, end));
        CoverExtend(buff, blocks, Block(start, end), next);
        StepBlocks(before.flash, address, buff, blocks, Block(start, end));
        blocks := blocks + [Block(start, end)];
        var _ :- OcdWrMem(address + start, buff[start..end]);
      }
      ProgramCover(before.flash, address, buff, |buff|, blocks);
      assert buff[..|buff|] == buff;
      return Ok(()), blocks;
    }

    /** First stage of wr_mem: make the copy hold the pages about to change. */
    method LoadPages(lo: nat, hi: nat) returns (r: Result<()>)
      requires Coherent() && lo <= hi <= EZ8MEM_SIZE
      modifies `cache, `revid, `dbgctl, `dbgstat, `memsize, `crc, `memcrc, mainMem, dev`chip
      ensures Coherent() && Still()
      ensures old(Ready()) ==> r.Ok? && Ready()
      ensures r.Ok? && Halted(old(dev.chip)) ==>
        Mem() == if old(Trusted()) then old(Mem()) else Overlay(old(Mem()), lo, dev.chip.flash[lo..hi])
      ensures r.Ok? && Halted(old(dev.chip)) && memcacheEnabled && Known() != 0 ==>
        (old(Trusted()) <==> crc == memcrc)
    {
      hide ImageCrc, MemorySize, HasBit, Overlay, CacheSlice;
      var trusted :- CacheAgrees();
      if !trusted {
        var _ :- RdMem(lo, hi - lo);
      }
      return Ok(());
    }

    /** The page loop of wr_mem. */
    method EraseProgrammed(lo: nat, hi: nat) returns (r: Result<()>)
      requires Coherent() && CRC !in cache && lo <= hi <= EZ8MEM_SIZE
      requires lo % EZ8MEM_PAGESIZE == 0 && hi % EZ8MEM_PAGESIZE == 0
      modifies `cache, `dbgctl, `dbgstat, dev`chip
      ensures Coherent() && CRC !in cache && cache <= old(cache) + {DBGCTL, DBGSTAT}
      ensures Halted(old(dev.chip)) ==> Halted(dev.chip)
      ensures old(Ready()) ==> r.Ok? && Ready()
      ensures r.Ok? && Halted(old(dev.chip)) ==>
        && dev.chip.flash == ErasePages(old(dev.chip).flash, Mem(), lo, hi)
        && Besides(dev.chip, freqHi, freqLo) == Besides(old(dev.chip), freqHi, freqLo)
    {
      hide ImageCrc, MemorySize, HasBit, ErasePages, PageBlank, ErasePage, Besides, Clocked;
      ghost var before := dev.chip.flash;
      ghost var ready := Ready();
      ghost var wasHalted := Halted(dev.chip);
      var addr := lo;
      ErasePagesNone(before, Mem(), lo);
      while addr < hi
        invariant lo <= addr <= hi && addr % EZ8MEM_PAGESIZE == 0
        invariant Coherent() && CRC !in cache && cache <= old(cache) + {DBGCTL, DBGSTAT}
        invariant wasHalted ==> Halted(dev.chip) && dev.chip.flash == ErasePages(before, Mem(), lo, addr)
        invariant wasHalted ==> Besides(dev.chip, freqHi, freqLo) == Besides(old(dev.chip), freqHi, freqLo)
        invariant ready ==> Ready()
      {
        var page := addr / EZ8MEM_PAGESIZE;
        ErasePagesStep(before, Mem(), lo, addr);
        if !PageBlank(mainMem[..], page) {
          BesidesOf(dev.chip, freqHi, freqLo, ErasePage(dev.chip.flash, page), Locked, page as Byte);
          var _ :- FlashPageErase(page);
        }
        addr := addr + EZ8MEM_PAGESIZE;
      }
      return Ok(());
    }

    /** Second stage of wr_mem: erase, overlay the new data, program, lock. */
    method Reprogram(address: nat, data: seq<Byte>) returns (r: Result<()>)
      requires Coherent() && address + |data| <= EZ8MEM_SIZE
      modifies `cache, `dbgctl, `dbgstat, mainMem, dev`chip, dev`writes
      ensures Coherent() && (Halted(old(dev.chip)) ==> Halted(dev.chip))
      ensures r.Ok? ==> mainMem[..] == Overlay(old(mainMem[..]), address, data)
      ensures old(Ready()) ==> r.Ok? && Ready()
      ensures r.Ok? && Halted(old(dev.chip)) ==>
        dev.chip == AtClock(old(dev.chip)).(flash := AfterWrite(old(dev.chip).flash, old(Mem()), address, data),
                                            lock := Locked, page := 0)
    {
      hide ImageCrc, MemorySize, HasBit, ErasePages, Overlay, Program, Besides, Clocked;
      var lo, hi := PageStart(address), PageEnd(address + |data|);
      cache := cache - {CRC};
      var _ :- EraseProgrammed(lo, hi);
      if Halted(old(dev.chip)) {
        BesidesSame(dev.chip, old(dev.chip), freqHi, freqLo);
      }
      cache := cache - {MEMCRC};
      ghost var known := Mem();
      forall i | 0 <= i < |data| {
        mainMem[address + i] := data[i];
      }
      OverlayIs(known, address, data, mainMem[..]);
      var _ :- FlashSetup(0x00);
      ghost var blocks;
      var done;
      done, blocks := WriteFlash(lo, mainMem[lo..hi]);
      var _ :- done;
      r := FlashLock();
    }

    /** Last stage of wr_mem. The copy is compared by checksum only if it was trusted before;
        otherwise the pages are read back. */
    method VerifyWrite(lo: nat, hi: nat) returns (r: Result<()>)
      requires Coherent() && lo <= hi <= EZ8MEM_SIZE
      modifies `cache, `revid, `dbgctl, `dbgstat, `memsize, `crc, `memcrc, mainMem, dev`chip
      ensures Coherent() && Still()
      ensures old(Ready()) ==> Ready()
      ensures old(memcacheEnabled && Known() != 0 && crc == memcrc) ==> Mem() == old(Mem())
      ensures r.Ok? && Halted(old(dev.chip)) && old(memcacheEnabled && Known() != 0 && crc == memcrc) ==> Trusted()
      ensures old(Ready()) && old(memcacheEnabled && Known() != 0 && crc == memcrc) ==> (r.Ok? <==> Trusted())
      ensures (r.Ok? && Halted(old(dev.chip))) || old(Ready()) ==>
        !old(memcacheEnabled && Known() != 0 && crc == memcrc) ==>
        Mem() == if old(Trusted()) then old(Mem()) else Overlay(old(Mem()), lo, dev.chip.flash[lo..hi])
      ensures old(Ready()) && !old(memcacheEnabled && Known() != 0 && crc == memcrc) && InFlash(hi) ==> r.Ok?
    {
      hide ImageCrc, MemorySize, HasBit, Overlay, CacheSlice;
      var size := 0;
      if memcacheEnabled {
        size :- MemorySizeNow();
      }
      if size != 0 && crc == memcrc {
        var remote :- CachedCrc();
        var local :- CachedMemcrc();
        if remote != local {
          return Fail(VerifyFailed);
        }
      } else {
        CacheSliceSynced(Mem(), Mem(), Known(), lo, hi - lo);
        OverlaySlice(Mem(), lo, dev.chip.flash[lo..hi]);
        var buffer :- RdMem(lo, hi - lo);
        if buffer != mainMem[lo..hi] {
          return Fail(VerifyFailed);
        }
      }
      return Ok(());
    }

    /** What wr_mem takes the chip's memory to hold before it writes: its own copy if the
        checksums agree, otherwise that copy with the touched pages read afresh. */
    ghost function Base(address: nat, size: nat): Image
      requires mainMem.Length == EZ8MEM_SIZE && dev.Valid() && address + size <= EZ8MEM_SIZE
      reads this, mainMem, dev
    {
      var lo, hi := PageStart(address), PageEnd(address + size);
      if Trusted() then Mem() else Overlay(Mem(), lo, dev.chip.flash[lo..hi])
    }

    /** wr_mem between saving and restoring the controller. */
    method Rewrite(address: nat, data: seq<Byte>) returns (r: Result<()>)
      requires Coherent() && address + |data| <= EZ8MEM_SIZE
      modifies `cache, `revid, `dbgctl, `dbgstat, `memsize, `crc, `memcrc, mainMem, dev`chip, dev`writes
      ensures Coherent() && (Halted(old(dev.chip)) ==> Halted(dev.chip))
      ensures old(Ready()) ==> Ready()
      ensures ((r.Ok? && Halted(old(dev.chip))) || old(Ready())) && InFlash(address + |data|) ==>
        && dev.chip.flash == AfterWrite(old(dev.chip).flash, old(Base(address, |data|)), address, data)
        && Mem() == Overlay(old(Base(address, |data|)), address, data)
      ensures r.Ok? && Halted(old(dev.chip)) ==>
        dev.chip == AtClock(old(dev.chip)).(flash := dev.chip.flash, lock := Locked, page := 0)
      ensures r.Ok? && Halted(old(dev.chip)) && old(Trusted()) ==> Trusted()
      ensures old(Ready()) && InFlash(address + |data|) ==> (r.Ok? <==> !old(Trusted()) || Trusted())
    {
      hide ImageCrc, MemorySize, HasBit, Overlay, AfterWrite, PageStart, PageEnd, Agree, Clocked;
      PageBounds(address, |data|, Known());
      var lo, hi := PageStart(address), PageEnd(address + |data|);
      var _ :- LoadPages(lo, hi);
      BaseAgrees(dev.chip.flash, old(Mem()), lo, hi, Known());
      WriteAgrees(dev.chip.flash, Mem(), address, data, Known());
      var _ :- Reprogram(address, data);
      OverlaySame(Mem(), dev.chip.flash, lo, hi);
      r := VerifyWrite(lo, hi);
    }

    /** Without a collision the write is the overlay. */
    lemma CleanWrite(address: nat, data: seq<Byte>)
      requires Coherent() && address + |data| <= EZ8MEM_SIZE && InFlash(address + |data|) && !Collision()
      ensures var base := Base(address, |data|);
        && AfterWrite(dev.chip.flash, base, address, data) == Overlay(dev.chip.flash, address, data)
        && Agree(Overlay(base, address, data), Overlay(dev.chip.flash, address, data),
                 PageStart(address), PageEnd(address + |data|))
        && (Synced() || Trusted() ==>
            Overlay(base, address, data)[..Known()] == Overlay(dev.chip.flash, address, data)[..Known()])
    {
      hide ImageCrc, MemorySize, HasBit, Overlay, AfterWrite, PageStart, PageEnd, Agree;
      PageBounds(address, |data|, Known());
      var lo, hi := PageStart(address), PageEnd(address + |data|);
      BaseAgrees(dev.chip.flash, Mem(), lo, hi, Known());
      WriteAgrees(dev.chip.flash, Base(address, |data|), address, data, Known());
    }

    method WrMem(address: nat, data: seq<Byte>) returns (r: Result<()>)
      requires Coherent()
      modifies `cache, `revid, `dbgctl, `dbgstat, `memsize, `crc, `memcrc, mainMem, dev`chip, dev`writes
      ensures Coherent()
      ensures address + |data| > EZ8MEM_SIZE ==>
        r == Fail(OutOfRange) && Mem() == old(Mem()) && dev.chip == old(dev.chip)
      ensures old(ShownRunning()) && address + |data| <= EZ8MEM_SIZE ==>
        r == Fail(Running) && Untouched() && dev.writes == old(dev.writes)
      ensures dev.protect ==> r.Fail? && (Halted(old(dev.chip)) ==> Untouched())
      ensures old(Ready()) ==> Ready()
      // a write that returns, on any link: the page register is back, the clock registers are set
      ensures r.Ok? && Halted(old(dev.chip)) ==>
        dev.chip == AtClock(old(dev.chip)).(flash := dev.chip.flash, lock := Locked)
      ensures r.Ok? && Halted(old(dev.chip)) && InFlash(address + |data|) ==>
        && address + |data| <= EZ8MEM_SIZE
        && dev.chip.flash == AfterWrite(old(dev.chip).flash, old(Base(address, |data|)), address, data)
        && Mem() == Overlay(old(Base(address, |data|)), address, data)
      ensures r.Ok? && Halted(old(dev.chip)) && InFlash(address + |data|) && !old(Collision()) ==>
        && address + |data| <= EZ8MEM_SIZE
        && dev.chip.flash == Overlay(old(dev.chip).flash, address, data)
        && Agree(Mem(), dev.chip.flash, PageStart(address), PageEnd(address + |data|))
        && (old(Synced()) ==> Synced())
      // on a reliable link: when it returns, and what it leaves when it does not
      ensures old(Ready()) && address + |data| <= EZ8MEM_SIZE && InFlash(address + |data|) ==>
        && (r.Ok? <==> !old(Trusted()) || Trusted())
        && (!old(Collision()) ==> r.Ok?)
        && dev.chip.flash == AfterWrite(old(dev.chip).flash, old(Base(address, |data|)), address, data)
        && Mem() == Overlay(old(Base(address, |data|)), address, data)
    {
      hide ImageCrc, MemorySize, HasBit, Overlay, AfterWrite, PageStart, PageEnd, Agree, ReadRegs, ReadReg, Restored;
      hide Clocked;
      if address + |data| > EZ8MEM_SIZE {
        return Fail(OutOfRange);
      }
      if Halted(dev.chip) && InFlash(address + |data|) && !Collision() {
        CleanWrite(address, data);
      }
      var _ :- CheckAccess();
      var state :- SaveFlashState();
      var done := Rewrite(address, data);
      SyncedCrc(Mem(), dev.chip.flash, Known());
      var _ :- done;
      if Halted(old(dev.chip)) {
        SavedPage(old(dev.chip));
        BesidesOf(old(dev.chip), freqHi, freqLo, dev.chip.flash, Locked, 0);
        ClockedFrame(AtClock(old(dev.chip)), freqHi, freqLo, dev.chip.flash, Locked, 0);
        RestoreAfterWrite(dev.chip, freqHi, freqLo, state);
      }
      r := RestoreFlashState(state);
    }

    /** The mass erase command on the unlocked controller. */
    method EraseChip(page: Byte) returns (r: Result<()>)
      requires Coherent()
      modifies `cache, `dbgctl, `dbgstat, dev`chip
      ensures Coherent() && cache <= old(cache) + {DBGCTL, DBGSTAT}
      ensures Halted(old(dev.chip)) ==> Halted(dev.chip)
      ensures old(Ready()) ==> r.Ok? && Ready()
      ensures r.Ok? && Halted(old(dev.chip)) ==>
        dev.chip == AtClock(old(dev.chip)).(flash := Blank(EZ8MEM_SIZE), lock := Locked, page := page)
    {
      hide ImageCrc, MemorySize, HasBit, WriteRegs, Clocked;
      var _ :- FlashSetup(page);
      EraseAll(dev.chip);
      r := WrRegs(EZ8_FIF_BASE, [EZ8_FIF_MASS_ERASE]);
    }

    method MassErase(info: bool) returns (r: Result<()>)
      requires Coherent()
      modifies `cache, `dbgctl, `dbgstat, `breakpoints, mainMem, dev`chip
      ensures Coherent() && (Halted(old(dev.chip)) ==> Halted(dev.chip))
      ensures old(Ready()) ==> r.Ok? && Ready()
      ensures old(ShownRunning()) ==> r == Fail(Running) && Untouched()
      ensures r.Ok? && Halted(old(dev.chip)) ==>
        && dev.chip == AtClock(old(dev.chip)).(flash := Blank(EZ8MEM_SIZE), lock := Locked,
                                               page := if info then 0x80 else 0x00)
        && Mem() == Blank(EZ8MEM_SIZE) && Synced() && breakpoints == []
    {
      hide ImageCrc, MemorySize, HasBit, WriteRegs, Clocked;
      var stopped :- StateStopped();
      if !stopped {
        return Fail(Running);
      }
      breakpoints := [];
      forall i | 0 <= i < EZ8MEM_SIZE {
        mainMem[i] := 0xff;
      }
      cache := cache - {CRC, MEMCRC};
      assert mainMem[..] == Blank(EZ8MEM_SIZE);
      var _ :- EraseChip(if info then 0x80 else 0x00);
      assert Halted(old(dev.chip)) ==> dev.chip.flash == Mem();
      var protected :- StateProtected();
      if protected {
        return Ok(());
      }
      StatusIdle(dev.chip);
      var status :- RdRegs(EZ8_FIF_BASE, 1);
      if HasBit(status[0], 0x20) {
        return Fail(FlashBusy);
      }
      return Ok(());
    }

    // ----- Breakpoints (ez8dbg_brk.cpp) -----

    method BreakpointSet(address: Address) returns (b: bool)
      ensures b == IsSet(breakpoints, address)
    {
      var i := 0;
      while i < |breakpoints|
        invariant 0 <= i <= |breakpoints|
        invariant forall k :: 0 <= k < i ==> breakpoints[k].address != address
      {
        if breakpoints[i].address == address {
          return true;
        }
        i := i + 1;
      }
      return false;
    }

    /** What the host takes memory to hold when it reads: its copy if the checksums agree. */
    ghost function View(): Image
      requires mainMem.Length == EZ8MEM_SIZE && dev.Valid()
      reads this, mainMem, dev
    {
      if Trusted() then Mem() else dev.chip.flash
    }

    /** The byte a read of one address returns. */
    ghost function Seen(address: Address): Byte
      requires mainMem.Length == EZ8MEM_SIZE && dev.Valid()
      reads this, mainMem, dev
    {
      View()[address]
    }

    lemma SeenIsTrue(address: Address)
      requires Coherent()
      ensures InFlash(address + 1) && !Collision() ==> Seen(address) == dev.chip.flash[address]
    {
      SyncedByte(Mem(), dev.chip.flash, Known(), address);
    }

    /** What the host sees depends on the two memories alone. */
    twostate lemma SameSight()
      requires Coherent() && old(Coherent())
      requires mainMem[..] == old(mainMem[..]) && dev.chip.flash == old(dev.chip.flash)
      requires memcacheEnabled == old(memcacheEnabled)
      ensures Synced() == old(Synced()) && Collision() == old(Collision()) && Trusted() == old(Trusted())
      ensures forall address: Address :: Seen(address) == old(Seen(address))
    {}

    method ReadByte(address: Address) returns (r: Result<Byte>)
      requires Coherent()
      modifies `cache, `revid, `dbgctl, `dbgstat, `memsize, `crc, `memcrc, mainMem, dev`chip
      ensures Coherent() && Still()
      ensures old(Ready()) ==> Ready() && r.Ok?
      ensures r.Ok? && Halted(old(dev.chip)) && InFlash(address + 1) ==> r.value == old(Seen(address))
      ensures r.Ok? && Halted(old(dev.chip)) && old(Trusted()) && Known() <= address ==> r.value == 0xff
      ensures r.Ok? && Halted(old(dev.chip)) ==>
        Mem() == if old(Trusted()) then old(Mem()) else old(Mem())[address := dev.chip.flash[address]]
    {
      hide ImageCrc, MemorySize, HasBit, Overlay;
      OverlayByte(Mem(), address, dev.chip.flash[address..address + 1]);
      var data :- RdMem(address, 1);
      return Ok(data[0]);
    }

    /** Program the breakpoint opcode, in the chip and in the copy. */
    method Plant(address: Address) returns (r: Result<()>)
      requires Coherent()
      modifies `cache, `dbgctl, `dbgstat, mainMem, dev`chip, dev`writes
      ensures Coherent()
      ensures old(Ready()) ==> r.Ok? && Ready()
      ensures Halted(old(dev.chip)) ==> Halted(dev.chip)
      ensures r.Ok? && Halted(old(dev.chip)) ==>
        && dev.chip == AtClock(old(dev.chip)).(flash := old(dev.chip).flash[address := 0], lock := Locked, page := 0)
        && Mem() == old(Mem())[address := 0]
    {
      hide ImageCrc, MemorySize, HasBit, Program, Clocked;
      var _ :- FlashSetup(0x00);
      cache := cache - {MEMCRC, CRC};
      mainMem[address] := 0;
      ProgramZero(dev.chip.flash, address);
      var _ :- OcdWrMem(address, [0]);
      r := FlashLock();
    }

    /** Remember the opcode, plant the breakpoint, and read it back. */
    method Arm(address: Address) returns (r: Result<()>)
      requires Coherent()
      modifies `cache, `revid, `dbgctl, `dbgstat, `memsize, `crc, `memcrc, `breakpoints, mainMem, dev`chip, dev`writes
      ensures Coherent()
      ensures old(Ready()) ==> Ready() && (InFlash(address + 1) ==> r.Ok?)
      // past the chip's memory a trusted copy reads 0xff, and what was planted is not found
      ensures old(Ready() && Trusted()) && !InFlash(address + 1) ==>
        r == Fail(VerifyFailed) && breakpoints == old(breakpoints) + [Breakpoint(address, 0xff)]
      ensures r.Ok? && Halted(old(dev.chip)) && InFlash(address + 1) ==>
        && dev.chip == AtClock(old(dev.chip)).(flash := old(dev.chip).flash[address := 0], lock := Locked, page := 0)
        && Mem() == old(Mem())[address := 0]
        && breakpoints == old(breakpoints) + [Breakpoint(address, old(Seen(address)))]
        && (old(Synced()) ==> Synced())
    {
      hide ImageCrc, MemorySize, HasBit;
      var data :- ReadByte(address);
      breakpoints := breakpoints + [Breakpoint(address, data)];
      SyncedUpdate(old(Mem()), dev.chip.flash, address, Known());
      UpdatePast(Mem(), address, Known());
      UpdatePast(dev.chip.flash, address, Known());
      var _ :- Plant(address);
      data :- ReadByte(address);
      if data != 0 {
        return Fail(VerifyFailed);
      }
      return Ok(());
    }

    /** The refusals of set_breakpoint. */
    method Admit(address: Address) returns (r: Result<()>)
      requires Coherent()
      modifies `cache, `dbgctl, `dbgstat, dev`chip
      ensures Coherent() && Still()
      ensures r.Ok? ==> !IsSet(breakpoints, address) && address != 0
      ensures old(ShownRunning()) ==> r == Fail(Running) && Untouched()
      ensures dev.protect ==> r.Fail? && (Halted(old(dev.chip)) ==> Untouched())
      ensures old(Ready()) ==> Ready()
      ensures old(Ready()) ==>
        r == if IsSet(breakpoints, address) then Fail(AlreadySet)
             else if address == 0 then Fail(NullAddress) else Ok(())
    {
      hide ImageCrc, MemorySize, HasBit, IsSet;
      var _ :- CheckAccess();
      var already := BreakpointSet(address);
      if already {
        return Fail(AlreadySet);
      }
      if address == 0 {
        return Fail(NullAddress);
      }
      return Ok(());
    }

    method SetBreakpoint(address: Address) returns (r: Result<()>)
      requires Coherent()
      modifies `cache, `revid, `dbgctl, `dbgstat, `memsize, `crc, `memcrc, `breakpoints, mainMem, dev`chip, dev`writes
      ensures Coherent()
      ensures old(Ready()) ==> Ready()
      ensures old(ShownRunning()) ==> r == Fail(Running) && Untouched()
      ensures dev.protect ==> r.Fail? && (Halted(old(dev.chip)) ==> Untouched())
      ensures InFlash(address + 1) && !old(Collision()) ==>
        old(Seen(address)) == old(dev.chip).flash[address]
      ensures old(Ready()) && IsSet(old(breakpoints), address) ==> r == Fail(AlreadySet) && Untouched()
      ensures old(Ready()) && !IsSet(old(breakpoints), address) && address == 0 ==>
        r == Fail(NullAddress) && Untouched()
      ensures old(Ready()) && !IsSet(old(breakpoints), address) && address != 0 && InFlash(address + 1) ==> r.Ok?
      // past the chip's memory a trusted copy reads 0xff, and what was planted is not found
      ensures old(Ready() && Trusted() && !IsSet(breakpoints, address)) && !InFlash(address + 1) && address != 0 ==>
        r == Fail(VerifyFailed) && breakpoints == old(breakpoints) + [Breakpoint(address, 0xff)]
      ensures r.Ok? && Halted(old(dev.chip)) && InFlash(address + 1) ==>
        && !IsSet(old(breakpoints), address) && address != 0
        && dev.chip == AtClock(old(dev.chip)).(flash := old(dev.chip).flash[address := 0], lock := Locked, page := 0)
        && Mem() == old(Mem())[address := 0]
        && breakpoints == old(breakpoints) + [Breakpoint(address, old(Seen(address)))]
        && (old(Synced()) ==> Synced())
    {
      hide ImageCrc, MemorySize, HasBit, Seen, Synced, Trusted, Collision, IsSet, InFlash;
      SeenIsTrue(address);
      var _ :- Admit(address);
      if Halted(old(dev.chip)) {
        SameSight();
      }
      r := Arm(address);
    }

    method DeleteBreakpoint(index: nat)
      requires index < |breakpoints|
      modifies `breakpoints
      ensures breakpoints == WithoutAt(old(breakpoints), index)
    {
      breakpoints := breakpoints[..index] + breakpoints[index + 1..];
    }

    method RemoveBreakpoint(address: Address) returns (r: Result<()>)
      requires Coherent()
      modifies `cache, `revid, `dbgctl, `dbgstat, `memsize, `crc, `memcrc, `breakpoints, mainMem, dev`chip, dev`writes
      ensures Coherent()
      ensures r.Fail? ==> breakpoints == old(breakpoints)
      ensures old(ShownRunning()) ==> r == Fail(Running) && Untouched()
      ensures dev.protect ==> r.Fail? && (Halted(old(dev.chip)) ==> Untouched())
      ensures r.Ok? ==> IsSet(old(breakpoints), address)
      ensures r.Ok? ==>
        breakpoints == WithoutAt(old(breakpoints), IndexOf(old(breakpoints), address))
      ensures r.Ok? && Halted(old(dev.chip)) ==>
        dev.chip == AtClock(old(dev.chip)).(flash := dev.chip.flash, lock := Locked)
      ensures old(Ready()) ==> Ready()
      ensures old(Ready()) && !IsSet(old(breakpoints), address) ==> r == Fail(NotSet) && Untouched()
      ensures old(Ready()) && IsSet(old(breakpoints), address) && InFlash(address + 1) ==>
        var data := [old(breakpoints)[IndexOf(old(breakpoints), address)].data];
        && (r.Ok? <==> !old(Trusted()) || Trusted())
        && (!old(Collision()) ==> r.Ok?)
        && dev.chip.flash == AfterWrite(old(dev.chip).flash, old(Base(address, 1)), address, data)
        && Mem() == Overlay(old(Base(address, 1)), address, data)
      ensures r.Ok? && Halted(old(dev.chip)) && InFlash(address + 1) && !old(Collision()) ==>
        && dev.chip.flash ==
           old(dev.chip).flash[address := old(breakpoints)[IndexOf(old(breakpoints), address)].data]
        && (old(Synced()) ==> Synced())
    {
      hide ImageCrc, MemorySize, HasBit, Overlay;
      var _ :- CheckAccess();
      var index := 0;
      while index < |breakpoints| && breakpoints[index].address != address
        invariant 0 <= index <= |breakpoints|
        invariant forall k :: 0 <= k < index ==> breakpoints[k].address != address
        modifies {}
      {
        index := index + 1;
      }
      IndexOfFirst(breakpoints, address, index);
      if index >= |breakpoints| {
        return Fail(NotSet);
      }
      OverlayByte(dev.chip.flash, address, [breakpoints[index].data]);
      var _ :- WrMem(address, [breakpoints[index].data]);
      DeleteBreakpoint(index);
      return Ok(());
    }

    /** The loop of read_mem: put the saved opcodes over the bytes read from `address` on. */
    method PutBack(read: seq<Byte>, address: nat, ghost image: Image) returns (data: seq<Byte>)
      requires address + |read| <= EZ8MEM_SIZE
      ensures |data| == |read|
      ensures read == image[address..address + |read|] ==>
        data == Logical(image, breakpoints)[address..address + |read|]
    {
      hide Logical;
      data := read;
      LogicalNone(image);
      assert breakpoints[..0] == [];
      var i := 0;
      while i < |breakpoints|
        invariant 0 <= i <= |breakpoints| && |data| == |read|
        invariant read == image[address..address + |read|] ==>
          data == Logical(image, breakpoints[..i])[address..address + |read|]
      {
        var offset := breakpoints[i].address - address;
        LogicalStep(image, breakpoints, i, address, |read|, data);
        if 0 <= offset < |data| {
          data := data[offset := breakpoints[i].data];
        }
        i := i + 1;
      }
      assert breakpoints[..i] == breakpoints;
    }

    /** Read memory with breakpoints replaced by the opcodes they stand on. */
    method ReadMem(address: nat, size: nat) returns (r: Result<seq<Byte>>)
      requires Coherent()
      modifies `cache, `revid, `dbgctl, `dbgstat, `memsize, `crc, `memcrc, mainMem, dev`chip
      ensures Coherent() && Still()
      ensures old(ShownRunning()) && address + size <= EZ8MEM_SIZE ==> r == Fail(Running) && Untouched()
      ensures dev.protect ==> r.Fail? && (Halted(old(dev.chip)) ==> Untouched())
      ensures old(Ready()) ==> Ready() && (r.Ok? <==> address + size <= EZ8MEM_SIZE)
      ensures r.Ok? ==> address + size <= EZ8MEM_SIZE && |r.value| == size && Halted(dev.chip)
      ensures r.Ok? && InFlash(address + size) && !Collision() ==>
        r.value == Logical(dev.chip.flash, breakpoints)[address..address + size]
      ensures r.Ok? && Halted(old(dev.chip)) && InFlash(address + size) && !old(Collision()) ==>
        r.value == Logical(dev.chip.flash, breakpoints)[address..address + size]
      // colliding or not
      ensures r.Ok? && Halted(old(dev.chip)) && InFlash(address + size) ==>
        && r.value == Logical(old(View()), breakpoints)[address..address + size]
        && Mem() == if old(Trusted()) then old(Mem())
                    else Overlay(old(Mem()), address, dev.chip.flash[address..address + size])
      ensures old(Synced()) && old(Ready()) ==> Synced()
    {
      hide ImageCrc, MemorySize, HasBit, Overlay, CacheSlice, Logical;
      var data :- RdMem(address, size);
      CacheSliceSynced(old(Mem()), old(Mem()), Known(), address, size);
      LogicalLocal(old(View()), dev.chip.flash, breakpoints, address, address + size);
      var patched := PutBack(data, address,
                             if Halted(old(dev.chip)) && InFlash(address + size) then old(View()) else dev.chip.flash);
      return Ok(patched);
    }

    // ----- Running and stopping (ez8dbg.cpp) -----

    /** ez8ocd::wr_dbgctl */
    method OcdWrDbgctl(v: Byte) returns (r: Result<()>)
      modifies `cache, dev`chip
      ensures cache == old(cache) || cache == {}
      ensures Halted(old(dev.chip)) && !HasBit(v, DBGCTL_RST) ==>
        dev.chip == old(dev.chip) || dev.chip == old(dev.chip).(dbgctl := v)
      ensures dev.reliable ==> r.Ok? && cache == old(cache)
      ensures r.Ok? && !HasBit(v, DBGCTL_RST) ==> dev.chip.dbgctl == v
      ensures r.Ok? && !HasBit(v, DBGCTL_RST) && Halted(old(dev.chip)) ==>
        dev.chip == old(dev.chip).(dbgctl := v)
    {
      dev.Tick();
      var _, pending :- NewCommand();
      var fate := dev.Transmit();
      if fate.Arrives? || fate.n > 0 {
        if HasBit(v, DBGCTL_RST) {
          dev.chip := *;
        } else {
          dev.chip := dev.chip.(dbgctl := v);
        }
      }
      return if fate.Arrives? then Ok(()) else Fail(LinkFailed);
    }

    /** ez8ocd::step_inst and ez8ocd::stuf_inst: one instruction, its first byte `opcode`. */
    method OcdExecute(opcode: Byte) returns (r: Result<()>)
      requires Coherent() && Halted(dev.chip) && PC !in cache && CRC !in cache
      modifies dev`chip
      ensures Coherent() && Halted(dev.chip)
      ensures dev.chip == old(dev.chip) || dev.chip == Execute(dev.isa, old(dev.chip), opcode)
      ensures r.Ok? ==> dev.chip == Execute(dev.isa, old(dev.chip), opcode)
      ensures dev.reliable ==> r.Ok?
    {
      hide ImageCrc, MemorySize, HasBit, Fetch;
      var fate := dev.Transmit();
      if fate.Arrives? || fate.n > 0 {
        dev.chip := Execute(dev.isa, dev.chip, opcode);
      }
      return if fate.Arrives? then Ok(()) else Fail(LinkFailed);
    }

    method FlushCache()
      requires Coherent()
      modifies `cache
      ensures Coherent() && cache == {}
    {
      cache := {};
    }

    method ResetLink() returns (r: Result<()>)
      requires mainMem.Length == EZ8MEM_SIZE && dev.Valid()
      modifies `cache, dev`chip
      ensures Coherent() && Still()
      ensures dev.reliable ==> r.Ok?
    {
      cache := {};
      r := OcdResetLink();
    }

    /** Up to `polls` further reads of the control register while the reset is in progress. */
    method ResetChip(polls: nat) returns (r: Result<()>)
      requires Coherent()
      modifies `cache, `dbgctl, dev`chip
      ensures Coherent()
      ensures r.Ok? ==> cache == {DBGCTL} && !HasBit(dbgctl, DBGCTL_RST)
    {
      hide ImageCrc, MemorySize;
      var ctl :- CachedDbgctl();
      var sent := OcdWrDbgctl(ctl | DBGCTL_RST);
      if sent.Fail? {
        var _ :- ResetLink();
      }
      cache := {};
      ctl :- CachedDbgctl();
      var n := polls;
      while HasBit(ctl, DBGCTL_RST) && n > 0
        invariant Coherent() && ctl == dbgctl && cache == {DBGCTL}
        decreases n
      {
        cache := cache - {DBGCTL};
        ctl :- CachedDbgctl();
        n := n - 1;
      }
      if HasBit(ctl, DBGCTL_RST) {
        return Fail(FlashBusy);
      }
      return Ok(());
    }

    /** Read the control register, resetting the link once if that fails. */
    method ReadControl() returns (r: Result<Byte>)
      requires Coherent()
      modifies `cache, `dbgctl, dev`chip
      ensures Coherent() && Still() && cache <= old(cache) + {DBGCTL}
      ensures r.Ok? ==> r.value == dbgctl && DBGCTL in cache
      ensures r.Ok? && Halted(old(dev.chip)) ==> dbgctl == dev.chip.dbgctl
      ensures r.Ok? && !HasBit(dbgctl, DBGCTL_DBG_MODE) ==> PC !in cache && CRC !in cache
      ensures dev.reliable ==> r.Ok?
    {
      hide ImageCrc, MemorySize, HasBit;
      cache := cache - {DBGCTL};
      r := CachedDbgctl();
      if r.Fail? {
        var _ :- OcdResetLink();
        cache := cache - {DBGCTL};
        r := CachedDbgctl();
      }
    }

    /** A temporary breakpoint that was set has left the list, and flash unless copy and chip
        collided; the other breakpoints stay. */
    twostate predicate TemporaryGone()
      requires Coherent() && old(Coherent())
      reads this, mainMem, dev
    {
      if old(tbreak) == 0 then breakpoints == old(breakpoints) else
        && IsSet(old(breakpoints), old(tbreak))
        && breakpoints == WithoutAt(old(breakpoints), IndexOf(old(breakpoints), old(tbreak)))
        && (Halted(old(dev.chip)) && InFlash(old(tbreak) + 1) && !old(Collision()) ==>
            dev.chip.flash == old(dev.chip).flash[
              old(tbreak) := old(breakpoints)[IndexOf(old(breakpoints), old(tbreak))].data])
    }

    /** Nothing keeps a reliable link from removing the temporary breakpoint, if one is set. */
    ghost predicate Removable()
      requires Coherent()
      reads this, mainMem, dev
    {
      tbreak != 0 ==> !dev.protect && IsSet(breakpoints, tbreak) && InFlash(tbreak + 1) && !Collision()
    }

    method ClearTemporary() returns (r: Result<()>)
      requires Coherent()
      modifies `cache, `revid, `dbgctl, `dbgstat, `memsize, `crc, `memcrc, `breakpoints, `tbreak
      modifies mainMem, dev`chip, dev`writes
      ensures Coherent() && (Halted(old(dev.chip)) && r.Ok? ==> Halted(dev.chip))
      ensures r.Ok? ==> tbreak == 0 && TemporaryGone()
      ensures r.Fail? ==> tbreak == old(tbreak) && breakpoints == old(breakpoints)
      ensures old(Ready()) ==> Ready()
      ensures old(Ready() && Removable()) ==> r.Ok?
      ensures old(tbreak) == 0 ==> r.Ok? && Untouched() && cache == old(cache) && dbgctl == old(dbgctl)
    {
      hide ImageCrc, MemorySize, HasBit, Clocked, AfterWrite, Overlay, Collision, InFlash;
      if tbreak != 0 {
        var _ :- RemoveBreakpoint(tbreak);
        tbreak := 0;
      }
      return Ok(());
    }

    method Stop() returns (r: Result<()>)
      requires Coherent()
      modifies `cache, `revid, `dbgctl, `dbgstat, `memsize, `crc, `memcrc, `breakpoints, `tbreak
      modifies mainMem, dev`chip, dev`writes
      ensures Coherent() && (r.Ok? ==> Halted(dev.chip))
      ensures old(ShownHalted()) ==> r.Ok? && Untouched() && tbreak == old(tbreak)
      ensures r.Ok? && !old(ShownHalted()) ==> tbreak == 0 && TemporaryGone()
      ensures old(tbreak) == 0 && r.Ok? ==> breakpoints == old(breakpoints) && Mem() == old(Mem())
      ensures old(tbreak) == 0 && dev.reliable && !dev.protect ==> r.Ok? && Ready()
      ensures old(Removable()) && Halted(old(dev.chip)) && dev.reliable ==> r.Ok?
    {
      hide ImageCrc, MemorySize, HasBit, Collision, InFlash;
      if DBGCTL in cache && HasBit(dbgctl, DBGCTL_DBG_MODE) {
        return Ok(());
      }
      var ctl :- ReadControl();
      if !HasBit(ctl, DBGCTL_DBG_MODE) {
        ctl := DBGCTL_DBG_MODE | DBGCTL_BRK_EN;
        StopWord();
        var _ :- OcdWrDbgctl(ctl);
        cache := cache - {DBGCTL};
        var now :- CachedDbgctl();
        if now != ctl {
          return Fail(VerifyFailed);
        }
      }
      if Halted(old(dev.chip)) {
        SameSight();
      }
      r := ClearTemporary();
    }

    /** What step executes: the saved opcode at a breakpoint, otherwise the opcode in flash. */
    ghost function StepOpcode(): Byte
      reads this`breakpoints, dev
    {
      var k := IndexOf(breakpoints, dev.chip.core.pc);
      if k < |breakpoints| then breakpoints[k].data else Opcode(dev.chip)
    }

    /** The other revisions: the saved opcode, or the one in flash. */
    method StepPlain(i: nat) returns (r: Result<()>)
      requires Coherent() && Halted(dev.chip) && i <= |breakpoints|
      modifies `cache, dev`chip
      ensures Coherent() && Halted(dev.chip) && (old(Ready()) ==> r.Ok? && Ready())
      ensures r.Ok? ==>
        dev.chip == Execute(dev.isa, old(dev.chip),
                            if i < |breakpoints| then breakpoints[i].data else Opcode(old(dev.chip)))
    {
      hide ImageCrc, MemorySize, HasBit, Execute, Opcode;
      cache := cache - {PC, CRC};
      if i < |breakpoints| {
        r := OcdExecute(breakpoints[i].data);
      } else {
        r := OcdExecute(Opcode(dev.chip));
      }
    }

    method Step() returns (r: Result<()>)
      requires Coherent()
      modifies `cache, `revid, `dbgctl, `dbgstat, `pc, `memsize, `crc, `memcrc, mainMem, dev`chip
      ensures Coherent() && (r.Ok? ==> Halted(dev.chip))
      ensures old(Ready()) ==> r.Ok? && Ready()
      ensures old(ShownRunning()) ==> r == Fail(Running) && Untouched()
      ensures dev.protect ==> r.Fail? && (Halted(old(dev.chip)) ==> Untouched())
      ensures dev.revid != 0x0100 ==> Mem() == old(Mem())
      ensures r.Ok? && Halted(old(dev.chip)) && dev.revid != 0x0100 ==>
        dev.chip == Execute(dev.isa, old(dev.chip), old(StepOpcode()))
      ensures r.Ok? && Halted(old(dev.chip)) && dev.revid == 0x0100 ==>
        (IsSet(breakpoints, old(dev.chip).core.pc) || (InFlash(old(dev.chip).core.pc + 1) && !old(Collision()))) ==>
        dev.chip == ExecuteMasked(dev.isa, old(dev.chip), old(StepOpcode()))
    {
      hide ImageCrc, MemorySize, HasBit, Execute, ExecuteMasked, Opcode, Collision;
      var _ :- CheckAccess();
      var rev :- CachedRevid();
      var at :- CachedPc();
      var i := 0;
      while i < |breakpoints| && breakpoints[i].address != at
        invariant 0 <= i <= |breakpoints|
        invariant forall k :: 0 <= k < i ==> breakpoints[k].address != at
        modifies {}
      {
        i := i + 1;
      }
      IndexOfFirst(breakpoints, at, i);
      if rev == 0x0100 {
        if Halted(old(dev.chip)) {
          SameSight();
        }
        r := StepPending(i);
      } else {
        r := StepPlain(i);
      }
    }

    /** One instruction: with the saved opcode at breakpoint `i`, otherwise the one in flash, which
        is read through the cache to see whether it is a DI. */
    method ExecuteSeen(i: nat) returns (r: Result<Byte>)
      requires Coherent() && Halted(dev.chip) && i <= |breakpoints| && pc == dev.chip.core.pc
      modifies `cache, `revid, `dbgctl, `dbgstat, `memsize, `crc, `memcrc, mainMem, dev`chip
      ensures Coherent() && (r.Ok? ==> Halted(dev.chip))
      ensures old(Ready()) ==> r.Ok? && Ready()
      ensures r.Ok? && (i < |breakpoints| || (InFlash(pc + 1) && !old(Collision()))) ==>
        && r.value == (if i < |breakpoints| then breakpoints[i].data else Opcode(old(dev.chip)))
        && dev.chip == Execute(dev.isa, old(dev.chip), r.value)
    {
      hide ImageCrc, MemorySize, HasBit, Execute;
      SyncedByte(Mem(), dev.chip.flash, Known(), pc);
      var opcode;
      if i < |breakpoints| {
        opcode := breakpoints[i].data;
        cache := cache - {PC, CRC};
        var _ :- OcdExecute(opcode);
      } else {
        opcode :- ReadByte(pc);
        if !Halted(dev.chip) {
          return Fail(Running);
        }
        cache := cache - {PC, CRC};
        var _ :- OcdExecute(Opcode(dev.chip));
      }
      return Ok(opcode);
    }

    /** Read the interrupt control register and clear its enable bit. */
    method MaskInterrupts() returns (r: Result<Byte>)
      requires Coherent() && Halted(dev.chip)
      modifies `cache, dev`chip
      ensures Coherent() && cache <= old(cache) && Halted(dev.chip) && dev.chip.flash == old(dev.chip).flash
      ensures dev.chip.core.pc == old(dev.chip).core.pc && Opcode(dev.chip) == old(Opcode(dev.chip))
      ensures old(Ready()) ==> r.Ok? && Ready()
      ensures r.Ok? ==>
        r.value == ReadReg(old(dev.chip), EZ8_IRQCTL) && dev.chip == MaskIrq(old(dev.chip))
    {
      hide ImageCrc, MemorySize, HasBit, WriteRegs, ReadReg;
      var _ :- Query();
      var irqctl := ReadReg(dev.chip, EZ8_IRQCTL);
      if HasBit(irqctl, 0x80) {
        var _ :- OcdWrRegs(EZ8_IRQCTL, [irqctl & 0x7f]);
      }
      return Ok(irqctl);
    }

    /** Set the enable bit of the interrupt control register again, unless the step was a DI. */
    method UnmaskInterrupts(irqctl: Byte, opcode: Byte) returns (r: Result<()>)
      requires Coherent() && Halted(dev.chip)
      modifies `cache, dev`chip
      ensures Coherent() && Halted(dev.chip) && (old(Ready()) ==> r.Ok? && Ready())
      ensures r.Ok? ==> dev.chip == UnmaskIrq(old(dev.chip), irqctl, opcode)
    {
      hide ImageCrc, MemorySize, HasBit, WriteRegs;
      if HasBit(irqctl, 0x80) && opcode != EZ8_DI_OPCODE {
        var _ :- OcdWrRegs(EZ8_IRQCTL, [irqctl | 0x80]);
      }
      return Ok(());
    }

    /** Revision 0x0100: interrupts are disabled around the step, unless it is a DI. */
    method StepPending(i: nat) returns (r: Result<()>)
      requires Coherent() && Halted(dev.chip) && i <= |breakpoints| && pc == dev.chip.core.pc
      modifies `cache, `revid, `dbgctl, `dbgstat, `memsize, `crc, `memcrc, mainMem, dev`chip
      ensures Coherent() && (r.Ok? ==> Halted(dev.chip))
      ensures old(Ready()) ==> r.Ok? && Ready()
      ensures r.Ok? && (i < |breakpoints| || (InFlash(pc + 1) && !old(Collision()))) ==>
        dev.chip == ExecuteMasked(dev.isa, old(dev.chip),
                                  if i < |breakpoints| then breakpoints[i].data else Opcode(old(dev.chip)))
    {
      hide ImageCrc, MemorySize, HasBit, Execute, WriteRegs, ReadReg, MaskIrq, UnmaskIrq, Opcode;
      hide Coherent, Collision, Halted, Ready, Trusted, Synced, Known, InFlash;
      var irqctl :- MaskInterrupts();
      SameSight();
      var opcode :- ExecuteSeen(i);
      r := UnmaskInterrupts(irqctl, opcode);
    }

    /** Let the CPU go; the cached control register records that it runs. */
    method Release() returns (r: Result<()>)
      requires Coherent()
      modifies `cache, `dbgctl, dev`chip
      ensures Coherent()
      ensures dev.reliable ==> r.Ok?
      ensures r.Ok? && Halted(old(dev.chip)) ==>
        dev.chip == old(dev.chip).(dbgctl := DBGCTL_BRK_EN | DBGCTL_BRK_ACK)
      ensures dev.reliable ==> ShownRunning()
    {
      hide ImageCrc, MemorySize, HasBit;
      RunWord();
      cache := cache - {PC, CRC} + {DBGCTL};
      dbgctl := DBGCTL_BRK_EN | DBGCTL_BRK_ACK;
      r := OcdWrDbgctl(dbgctl);
    }

    /** The first revisions cannot be set running again while they are protected. */
    method CheckRelease() returns (r: Result<()>)
      requires Coherent()
      modifies `cache, `revid, `dbgstat, dev`chip
      ensures Coherent() && Still() && cache <= old(cache) + {REVID, DBGSTAT}
      ensures r.Ok? ==> !dev.protect || dev.revid !in {0x0100, 0x0110, 0x0120}
      ensures dev.reliable ==>
        old(cache) <= cache && (r.Ok? <==> !dev.protect || dev.revid !in {0x0100, 0x0110, 0x0120})
    {
      hide ImageCrc, MemorySize, HasBit;
      var rev :- CachedRevid();
      if rev in {0x0100, 0x0110, 0x0120} {
        var protected :- StateProtected();
        if protected {
          return Fail(Protected);
        }
      }
      return Ok(());
    }

    method Run() returns (r: Result<()>)
      requires Coherent()
      modifies `cache, `revid, `dbgctl, `dbgstat, `pc, `memsize, `crc, `memcrc, mainMem, dev`chip
      ensures Coherent()
      ensures old(Ready()) && dev.revid != 0x0100 ==> Mem() == old(Mem())
      ensures old(Ready()) ==> r.Ok?
      ensures old(ShownRunning()) ==> r.Ok? && dev.chip == old(dev.chip)
      ensures dev.reliable && r.Ok? ==> ShownRunning()
      // a protected chip is let go by the later revisions only, and only with its counter at hand
      ensures dev.protect && Halted(old(dev.chip)) && !old(ShownRunning()) ==>
        if dev.revid in {0x0100, 0x0110, 0x0120} || PC !in old(cache) || IsSet(breakpoints, old(dev.chip).core.pc)
        then r.Fail? && dev.chip == old(dev.chip) else dev.reliable ==> r.Ok?
      ensures r.Ok? && Halted(old(dev.chip)) && !old(ShownRunning()) ==>
        dev.chip == (if !IsSet(breakpoints, old(dev.chip).core.pc) then old(dev.chip)
                     else if dev.revid == 0x0100
                     then ExecuteMasked(dev.isa, old(dev.chip), old(StepOpcode()))
                     else Execute(dev.isa, old(dev.chip), old(StepOpcode())))
                    .(dbgctl := DBGCTL_BRK_EN | DBGCTL_BRK_ACK)
    {
      hide ImageCrc, MemorySize, HasBit, Execute, ExecuteMasked, Collision;
      var stopped :- StateStopped();
      if !stopped {
        return Ok(());
      }
      var _ :- CheckRelease();
      var at :- CachedPc();
      var planted := BreakpointSet(at);
      if planted {
        var _ :- Step();
      }
      r := Release();
    }

    /** `ack` tells whether the chip has sent an acknowledge since it was set running. */
    method IsRunning(ack: bool) returns (r: Result<bool>)
      requires Coherent()
      modifies `cache, `revid, `dbgctl, `dbgstat, `memsize, `crc, `memcrc, `breakpoints, `tbreak
      modifies mainMem, dev`chip, dev`writes
      ensures Coherent()
      ensures r == Ok(true) ==> ShownRunning() && breakpoints == old(breakpoints) && tbreak == old(tbreak)
      ensures r == Ok(false) ==> Halted(dev.chip)
      ensures r == Ok(false) && !old(ShownHalted()) ==> tbreak == 0 && TemporaryGone()
      ensures old(ShownHalted()) ==> r == Ok(false) && Untouched() && tbreak == old(tbreak)
      ensures old(ShownRunning()) && !ack ==> r == Ok(true)
      ensures dev.reliable && Halted(old(dev.chip)) && (old(ShownRunning()) ==> ack) && old(Removable()) ==>
        r == Ok(false)
    {
      hide ImageCrc, MemorySize, HasBit, Collision, InFlash;
      if DBGCTL in cache {
        if HasBit(dbgctl, DBGCTL_DBG_MODE) {
          return Ok(false);
        }
        dev.Tick();
        if !ack {
          return Ok(true);
        }
        var fate := dev.Transmit();
        if fate.Lost? {
          var _ :- OcdResetLink();
        }
      }
      var ctl :- ReadControl();
      if HasBit(ctl, DBGCTL_DBG_MODE) {
        if Halted(old(dev.chip)) {
          SameSight();
        }
        var _ :- ClearTemporary();
        return Ok(false);
      }
      return Ok(true);
    }
  }

  lemma StopWord()
    ensures HasBit(DBGCTL_DBG_MODE | DBGCTL_BRK_EN, DBGCTL_DBG_MODE)
    ensures !HasBit(DBGCTL_DBG_MODE | DBGCTL_BRK_EN, DBGCTL_RST)
  {}

  lemma RunWord()
    ensures !HasBit(DBGCTL_BRK_EN | DBGCTL_BRK_ACK, DBGCTL_DBG_MODE)
    ensures !HasBit(DBGCTL_BRK_EN | DBGCTL_BRK_ACK, DBGCTL_RST)
  {}
}
