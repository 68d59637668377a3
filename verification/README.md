# Verification of the Z8 Encore! on-chip debugger tools

A Dafny model of the parts of the debugger tools that are hard to get right, with proofs. From the
chip upwards:

- **Flash, cache and breakpoints** (`Ez8.dfy`, `Device.dfy`, `FlashBlocks.dfy`, `Memory.dfy`,
  `Ez8dbg.dfy`, `Session.dfy`, `Stepping.dfy`, `Collision.dfy`). The host keeps a 64K copy of
  program memory and trusts it when the chip's checksum of its flash equals the checksum of the
  copy. It programs flash by reading, erasing, overlaying and sparsely rewriting whole pages, and
  plants breakpoints by programming 0x00 over opcodes. `Debugger` is the debugger object: its
  methods update the cache flags, the copy and the breakpoint list, and drive a chip with a
  lockable flash controller (erase sets a page to 0xff, programming ands bytes into place), a CPU
  with an uninterpreted instruction set and a CRC command. The invariant `Coherent` says that
  whatever is flagged as cached agrees with the chip; every method keeps it, also when the link
  loses a command half way. `Session` states what any run of operations does to the user's
  program, what the host makes of such a run when its copy of memory may be stale or even collide
  with the chip, and `Replay` that the debugger carries it out so.
- **Command transport** (`Transport.dfy`). Register and memory transfers are cut by the 256-byte
  limit and by the mtu, over a single wire that echoes what is sent, to a chip that decodes a byte
  at a time.
- **Serial receiver** (`Serial.dfy`). The tty driver escapes line errors into the data; the
  receiver undoes this in place for any split into reads, and may read ahead.
- **Codecs and checksums** (`Crc.dfy`, `Md5.dfy`, `Md5Laws.dfy`, `Hexfile.dfy`, `Text.dfy`): the reflected
  CRC-CCITT (Appendix C.2 of RFC 1662), MD5 (RFC 1321, sections 3.1 to 3.5) and Intel hexfiles
  (Hexadecimal Object File Format Specification, revision A).
- **TCP link** (`Sockstream.dfy`, `Protocol.dfy`, `Tcp.dfy`, `Auth.dfy`): the buffered stream, the
  READ and WRITE exchanges of client and server, and the md5 challenge handshake.
- **Dumps** (`Dump.dfy`): the hex dump with and without summaries of repeated bytes.

How the outside world appears: the chip is `Device.Ocd`, whose link is either reliable or may lose
any command after any number of its bytes; a running CPU may change the chip arbitrarily between
commands; a tty or socket delivers and takes bytes in pieces of arbitrary size; random challenges
and clock dividers are parameters, and so is whether the chip has sent an acknowledge. Integer
widths are written out where they matter (16-bit addresses, 32-bit MD5 words, 8-bit checksums).

On checksums: equal checksums do not mean equal memories, and "or a collision exists" would say
nothing, since collisions always exist among 64K images. The theorems therefore speak of the two
concrete memories at hand: `Collision()` means that this copy and this flash differ below the
memory size while their checksums agree. For a run, `Session.NoClash` says that the copy and the
flash which the host model computes from those at hand never come to that. `Collision.dfy` shows
that the case is real.

Where the code departs from its own comments the model follows the code:

- The comparison that `wr_mem` makes when the copy was not trusted first reads the pages back into
  the copy it then compares with, so it cannot fail (`VerifyWrite`); correctness is proved from the
  chip, not from that comparison.
- `wr_mem` does not look at the breakpoint list (`WriteReaches` gives the exact condition).
- `restore_flash_state` compares the current control register where the saved one is meant and
  rewrites the clock registers when they have not changed, so it restores only what was there
  already, and the page (`RestoreExact`, both directions; `RestoreLosesUnlock`).
- `serialport::error` stores at the start of the read-ahead buffer whatever it holds: harmless if
  and only if the buffer is empty (`PeekLoses`).
- An mtu of 1 would ask for pieces of length 0, which the chip takes as the maximum
  (`CommandFields`).
- `global.h` calls UINT4 a four byte word and declares it `unsigned long`; the model uses 32 bits.
- A client that reads twice in a row meets the blank line of the first reply (`SecondRead`).
- `dump_data_repeat` keeps the column of an unaligned start across a summary
  (`LabelledExactly`, `LostColumn`), and with a small minrepeat may not move forward
  (`RepeatProgress`, `TilesExactly`, `EndsExactly`, `StuckForever`, `RetreatEnds`).
- After a write or a breakpoint the controller is locked and its clock registers set, whatever they
  were; only a write brings the page register back (`WrMem`, `SetBreakpoint`).
- A breakpoint past the chip's memory is planted and recorded before it is refused
  (`SetBreakpoint`).
- A user name with a `#` is cut off by the server's comment rule (`UserLineRead`).
- `wr_hexfile` ends exactly when every record starts below 4 GiB (`PrintsForever`).

## Model

| member | source | states |
|---|---|---|
| Ez8dbg.Debugger.WrMem | ez8dbg_flash.cpp:178-272 | On any link, a write into memory the host can vouch for that returns on a chip halted before: flash is exactly what the page plan makes of it (touched programmed pages erased, old page contents overlaid with the data, programmed) and the copy is the overlay of what the host took memory to be; unless copy and chip differed while their checksums agreed, flash is the old flash overlaid by the data on exactly that range, and the copy equals flash on every touched page and stays in step elsewhere. Of the rest of the chip only the controller and its clock registers have changed: it is locked, and the page register holds what it held. On a reliable link it also returns exactly when a previously trusted copy is still trusted. A range past 64K, a chip known to run and a protected one are refused without any change |
| Ez8dbg.Debugger.Rewrite | ez8dbg_flash.cpp:213-267 | The three stages of a write, with the memory the host takes the chip to hold beforehand as their starting point; a copy trusted before is trusted after a write that returns |
| Memory.WriteAgrees | ez8dbg_flash.cpp:217-251 | If the host knows the touched pages, erase-if-not-blank, overlay and sparse programming together are just the overlay of the data on the old flash |
| Memory.WriteExact | ez8dbg_flash.cpp:217-251 | The effect of a write is the overlay if and only if, on the touched pages, every byte beside the data is known or on a page the copy shows as blank, and every data byte on such a page can be programmed over what the chip really holds |
| Ez8dbg.Debugger.CleanWrite | ez8dbg_flash.cpp:178-272 | With no collision at hand the page plan applied to what the host takes the chip to hold is the overlay of the data on real flash, and the copy agrees on the touched pages |
| Collision.WriteCorruptsNeighbour | ez8dbg_flash.cpp:222-259 | A concrete family in which the copy is trusted by checksum but differs from the chip: a write elsewhere in the page passes the checksum test before and after and changes an unrelated byte, so the collision case of WrMem cannot be dropped |
| Collision.SameChecksum | ez8dbg_flash.cpp:79-81 | Two different images that the checksum test takes for one another, whatever follows their first three bytes |
| Ez8dbg.Debugger.RdMem | ez8dbg_flash.cpp:57-103 | In every coherent state, those left by a thrown error included, and on any link: a read inside known memory that returns gives the chip's bytes unless copy and chip collide (stated for the state after, and for the state before when the chip was halted). Also what it returns and does to the copy and the flags in each case: copy trusted, with 0xff past the chip's memory, copy not trusted, out of range, chip running or protected |
| Memory.CacheSliceBeyond | ez8dbg_flash.cpp:83-92 | A read past the end of memory is filled with 0xff from there on |
| Ez8dbg.Debugger.ReadChip | ez8dbg_flash.cpp:98-102 | The read of the chip itself: the bytes come back and lie in the copy, which stays in step where it was |
| Ez8dbg.Debugger.LoadPages | ez8dbg_flash.cpp:222-232 | After the first stage of a write the copy holds the touched pages as the host will take them to be |
| Ez8dbg.Debugger.EraseProgrammed | ez8dbg_flash.cpp:234-242 | The page loop erases exactly the pages of the range that the copy shows as programmed |
| Ez8dbg.Debugger.Reprogram | ez8dbg_flash.cpp:234-251 | Erasing, overlaying, programming and locking leave flash as the page plan says and the copy overlaid by the data |
| Ez8dbg.Debugger.VerifyWrite | ez8dbg_flash.cpp:253-267 | The checksum comparison accepts exactly when the copy is still trusted; the other comparison reads the pages back into the copy it compares with, and so never fails inside known memory |
| Ez8dbg.Debugger.WriteFlash | ez8dbg_flash.cpp:118-169 | The commands sent are exactly those of the sparse cover of the buffer, and on an unlocked controller flash becomes the old flash and-ed with the whole buffer |
| FlashBlocks.FindBlock | ez8dbg_flash.cpp:142-154 | The inner loop finds a block that starts and ends on a programmed byte, holds no erased run of eight, and is followed only by erased bytes, at least eight of them unless the buffer ends |
| FlashBlocks.ProgramCover | ez8dbg_flash.cpp:118-169 | Programming only the blocks of the cover has the effect of programming every byte |
| FlashBlocks.ProgramOnErased | ez8dbg_flash.cpp:106-116 | On erased flash, programming a buffer stores exactly that buffer |
| FlashBlocks.CoverUnique | ez8dbg_flash.cpp:139-166 | Ascending blocks with these end conditions, eight apart, leaving out only erased bytes: there is only one such list, so it is what is sent |
| FlashBlocks.MemNChr | ez8dbg_flash.cpp:37-48 | The first byte that is not erased, or the end |
| FlashBlocks.MemChr | ez8dbg_flash.cpp:145-146 | The first erased byte, or the end |
| Ez8dbg.Debugger.FlashSetup | ez8dbg_flash.cpp:500-524 | Leaves the controller unlocked for the page and the clock registers set, high byte first; nothing else of the chip changes, and the flash checksum is no longer cached |
| Memory.ClockedReads | ez8dbg_flash.cpp:512-521 | The high byte of the frequency is read at 0xffa, the low one at 0xffb, every other register as before |
| Device.ControlShows | ez8dbg_flash.cpp:445-494 | The control register shows 0, 1 and 2 on the way from locked to unlocked, and both unlock bytes are needed in order |
| Memory.SetupUnlocks | ez8dbg_flash.cpp:513-521 | The lock, page, frequency and two unlock writes in this order unlock the controller for the page, set the clock and change nothing else |
| Ez8dbg.Debugger.FlashLock | ez8dbg_flash.cpp:530-537 | Locks the controller and changes nothing else |
| Ez8dbg.Debugger.FlashPageErase | ez8dbg_flash.cpp:549-585 | Exactly the 512 bytes of the page become 0xff; of the rest only the controller and its clock registers change. A running or protected chip is refused |
| Ez8dbg.Debugger.MassErase | ez8dbg_flash.cpp:593-644 | On any link, an erase that returns on a chip halted before leaves chip and copy blank and in step, the controller locked, the rest of the chip as it was, and all breakpoints forgotten; a chip known to run is refused without any change |
| Ez8dbg.Debugger.SaveFlashState | ez8dbg_flash.cpp:435-439 | The four controller registers as they are, the first never above 4 |
| Ez8dbg.Debugger.RestoreFlashState | ez8dbg_flash.cpp:445-494 | A restore that returns leaves the chip as the code's own comparisons say, which compare the current control register where the saved one is meant; on a reliable link it returns exactly when the saved control byte is at most 4 |
| Memory.RestoreExact | ez8dbg_flash.cpp:445-494 | After a restore the four registers are the saved ones if and only if the control byte and the clock bytes already were before it; the page byte always is |
| Memory.RestoreLosesUnlock | ez8dbg_flash.cpp:465-477 | An input on which the restore fails: a controller saved unlocked and found locked stays locked |
| Memory.RestoreAfterWrite | ez8dbg_flash.cpp:445-494 | At the end of a write, with the controller locked and its clock set, the restore brings back the saved page and leaves everything else |
| Ez8dbg.Debugger.NewCommand | ez8ocd.cpp:348-354 | A pending line error drops the whole cache or fails, and nothing else does; on a reliable link there is none |
| Ez8dbg.Debugger.constructor | ez8dbg.cpp:35-72 | Nothing cached, the copy erased, no breakpoint: a coherent start |
| Ez8dbg.Debugger.CachedRevid | ez8dbg.cpp:181-187 | The value returned is the chip's, and is cached; coherence is kept even when the link fails |
| Ez8dbg.Debugger.CachedDbgctl | ez8dbg.cpp:194-201 | A cached value is returned as it is; a fresh one is the chip's, is cached, and if it shows a running chip no program counter or checksum is cached |
| Ez8dbg.Debugger.CachedDbgstat | ez8dbg.cpp:208-215 | The read-protect bit returned is the chip's, and the status is cached |
| Ez8dbg.Debugger.CachedMemsize | ez8dbg.cpp:222-229 | The value returned is the chip's, and is cached |
| Ez8dbg.Debugger.MemorySizeNow | ez8dbg.cpp:235-378 | The size returned is the one the chip's registers code, 0 for an unknown revision |
| Device.MemorySize | ez8dbg.cpp:235-378 | Every size the register codes stand for is at most 64K and whole pages |
| Device.SizeInK | ez8dbg.cpp:235-378 | The revisions whose size is known, and the Kbytes of each of the eight codes |
| Ez8dbg.Debugger.CachedMemcrc | ez8dbg.cpp:385-402 | With a known size the value is the checksum of the copy's first bytes, and is cached; otherwise 0 |
| Ez8dbg.Debugger.RdCrc | ez8dbg.cpp:969-982 | The value is the checksum of current flash, the chip is halted and the value cached; a chip known to run is refused |
| Ez8dbg.Debugger.CachedCrc | ez8dbg.cpp:984-990 | The value, cached or fresh, is the checksum of current flash |
| Ez8dbg.Debugger.CacheAgrees | ez8dbg_flash.cpp:79-81 | The test says yes exactly when the copy is trusted: caching is on, the size is known and the checksums of chip and copy agree |
| Ez8dbg.Debugger.RdPc | ez8dbg.cpp:996-1016 | The value is the program counter of a halted, unprotected chip, and is cached; other chips are refused |
| Ez8dbg.Debugger.CachedPc | ez8dbg.cpp:1018-1024 | The value, cached or fresh, is the chip's program counter |
| Ez8dbg.Debugger.WrPc | ez8dbg.cpp:1030-1053 | On success the chip and the cache hold the new program counter, and nothing but it has changed in a halted chip; a running or protected chip is refused |
| Ez8dbg.Debugger.RdRegs | ez8dbg.cpp:1059-1084 | The values are the chip's registers; on a reliable link to a halted chip it returns exactly for ranges inside the register file that lie in the peripherals if the chip is protected; a chip known to run is refused |
| Ez8dbg.Debugger.WrRegs | ez8dbg.cpp:1090-1143 | A write that returns has written the registers, and on a reliable link to a halted chip it returns exactly for ranges inside the register file that lie in the peripherals if the chip is protected; one covering the flash control register drops the cached checksum, any other leaves it and flash as they were; a range past 64K and a chip known to run are refused |
| Ez8dbg.Debugger.CheckBack | ez8dbg.cpp:1120-1140 | What lies below the peripherals is read back and compared |
| Device.WrittenReads | ez8dbg.cpp:1120-1140 | Registers written hold what was written, and those below stay |
| Device.WriteRegsFrame | ez8dbg.cpp:1112-1115 | Only a register write that covers the flash control register can change flash: the reason the cached checksum may survive all others |
| Ez8dbg.Debugger.CheckAccess | ez8dbg_flash.cpp:66-76 | Success means a halted chip without read protection; a chip known to run and a protected one are refused without any change |
| Ez8dbg.Debugger.FlushCache | ez8dbg.cpp:165-168 | An empty cache is coherent |
| Ez8dbg.Debugger.ResetLink | ez8dbg.cpp:558-565 | Restores coherence from any state |
| Ez8dbg.Debugger.ResetChip | ez8dbg.cpp:522-550 | Coherent whatever the reset did to the chip and wherever the link failed; on success the reset bit is clear and nothing but the control register is cached |
| Ez8dbg.Debugger.Stop | ez8dbg.cpp:575-617 | On success the chip is halted; a temporary breakpoint is gone from the list and, unless copy and chip collide, from flash, and nothing else changed there; a chip recorded as halted is left alone |
| Ez8dbg.Debugger.ClearTemporary | ez8dbg.cpp:608-613 | The temporary breakpoint leaves list and flash, the other breakpoints stay; a failure leaves it set |
| Ez8dbg.Debugger.Step | ez8dbg.cpp:807-888 | A step that returns executes one instruction, with the saved opcode if the program counter is at a breakpoint and the one in flash otherwise; on revision 0x0100 with interrupts masked around it (for an opcode in flash, unless copy and chip collide). On the other revisions the copy is untouched. On a reliable link to a halted chip it returns; a running or protected chip is refused |
| Ez8dbg.Debugger.StepPlain | ez8dbg.cpp:867-884 | The path of the other revisions: one instruction, the saved opcode stuffed at a breakpoint |
| Ez8dbg.Debugger.MaskInterrupts | ez8dbg.cpp:834-840 | The control register is returned as it was and its enable bit cleared |
| Ez8dbg.Debugger.UnmaskInterrupts | ez8dbg.cpp:843-846 | The enable bit is set again if it was set and the instruction is no DI |
| Ez8dbg.Debugger.StepPending | ez8dbg.cpp:821-865 | The revision 0x0100 path: the interrupt enable is cleared before the step and set again after it unless it was clear before or the instruction is a DI |
| Device.MaskedBefore | ez8dbg.cpp:834-840 | While the instruction executes the interrupt enable bit is clear and no other bit or register is touched |
| Device.UnmaskedAfter | ez8dbg.cpp:843-861 | Afterwards the interrupt control register holds what it held before, unless the bit was clear then or the instruction was a DI |
| Ez8dbg.Debugger.ExecuteSeen | ez8dbg.cpp:841-860 | The instruction executed and the opcode reported agree, though one comes through the cache and the other from the chip |
| Ez8dbg.Debugger.Run | ez8dbg.cpp:623-656 | On any link, a run that returns has released a halted chip from where it is, after one step (as the revision makes it) if it stands on a breakpoint, and on a reliable link the chip is then recorded as running; a chip already recorded so is left alone; a protected one is let go by the later revisions only, with its program counter at hand and no breakpoint there |
| Ez8dbg.Debugger.CheckRelease | ez8dbg.cpp:631-642 | The first three revisions are refused while protected |
| Ez8dbg.Debugger.IsRunning | ez8dbg.cpp:763-801 | The answer "not running" means the chip is halted, with a temporary breakpoint removed unless the chip was recorded as halted; "running" means it is recorded as running. On a reliable link a halted chip is found halted when it is not recorded as running or has sent an acknowledge; recorded as running without an acknowledge it is taken to run |
| Ez8dbg.Debugger.BreakpointSet | ez8dbg_brk.cpp:34-45 | True exactly for the addresses in the list |
| Ez8dbg.Debugger.SetBreakpoint | ez8dbg_brk.cpp:76-132 | A chip running or protected, a breakpoint already set and address 0 are refused without any change; otherwise flash changes in that one byte to 0x00, of the rest only the controller and its clock registers, and the list grows by the address with the byte seen there, which is the chip's unless checksums collide. Past the chip's memory a trusted copy makes it fail after planting |
| Ez8dbg.Debugger.Admit | ez8dbg_brk.cpp:82-104 | Which requests are refused (running, protected, already set, address 0), and that a refusal changes nothing |
| Ez8dbg.Debugger.DeleteBreakpoint | ez8dbg_brk.cpp:138-162 | Exactly that entry goes, the order of the others stays |
| Ez8dbg.Debugger.RemoveBreakpoint | ez8dbg_brk.cpp:169-208 | The saved byte is back in flash, nothing else changes there and of the rest only the controller and its clock registers, and the first entry of that address is gone, unless copy and chip collide; a chip running or protected and an unknown address are refused without any change; on failure the list is as it was. On a reliable link, colliding or not: what flash and copy become, and that it fails exactly when a trusted copy is no longer trusted |
| Ez8dbg.Debugger.ReadMem | ez8dbg_brk.cpp:215-231 | On any link and in every coherent state, a read that returns gives the slice of the user's program, which is flash with every breakpoint's byte replaced by the saved one, unless copy and chip collide; colliding or not, it gives the slice of what the host takes memory to hold, and says what becomes of the copy |
| Ez8dbg.Debugger.PutBack | ez8dbg_brk.cpp:221-229 | The loop over the list puts the saved opcodes into the bytes read, and a slice of flash becomes the same slice of the user's program |
| Session.RunKeepsProgram | ez8dbg_brk.cpp:76-231 | Over every run of set, remove, read and write operations whose writes avoid the breakpoints then set: the user's program changes by the writes alone, breakpoints stay at distinct nonzero addresses and planted |
| Session.WriteReaches | ez8dbg_flash.cpp:178-272 | wr_mem ignores the breakpoint list: a write reaches the user's program if and only if at every breakpoint it covers it writes the byte already saved there |
| Session.RemoveAll | ez8dbg_brk.cpp:169-208 | Removing all breakpoints, in any order, leaves exactly the user's program in flash |
| Session.SetKeeps | ez8dbg_brk.cpp:76-132 | Setting a breakpoint leaves the user's program as it was |
| Session.RemoveKeeps | ez8dbg_brk.cpp:169-208 | Removing one leaves the user's program as it was and takes its address out of the list |
| Session.LogicalAt | ez8dbg_brk.cpp:221-229 | With distinct addresses, the byte of the user's program at an address is the saved one if a breakpoint is there and flash's otherwise |
| Session.Issue | ez8dbg_brk.cpp:76-231 | The debugger carries out one operation as the host model says, collisions included: flash, list, copy and what a read returns. Unless copy and chip collide that is what the run model says, and a copy in step stays so |
| Session.Replay | ez8dbg_brk.cpp:76-231 | From any coherent state, whatever the copy holds, and with no assumption about checksums: the debugger carries a run out exactly as the host model predicts it, in flash, list, copy and every byte its reads return. If the predicted run meets no clash (a condition on flash, copy and operations before the call), flash and list go as the run model says, and, if the writes avoid the breakpoints, the user's program is changed by them alone and every read is a slice of it. A copy in step at the start meets none |
| Session.ActsClean | ez8dbg_flash.cpp:57-272 | A run of the host model without a clash, also one that starts with the copy out of step, goes as the run model says, and shows the reads of the user's program |
| Session.ActClean | ez8dbg_flash.cpp:57-272 | One operation of the host model without a clash: the erase, overlay and program plan, the trusted or untrusted reads and the checksum test come to the plain effect |
| Session.InStepNoClash | ez8dbg_flash.cpp:57-272 | With the copy in step at the start a run meets no clash and ends in step |
| Session.ReadAllFirst | ez8dbg_flash.cpp:57-103 | Nor does a run that begins by reading all memory, whatever the copy held, unless it clashes at its very start |
| Session.ShownPrefix | ez8dbg_flash.cpp:57-272 | What a run shows before its first clash is right, whatever comes after |
| Session.ReadRight | ez8dbg_brk.cpp:215-231 | A read is right if and only if the copy is not trusted, or agrees with the chip at every address read that holds no breakpoint |
| Stepping.StepsSame | ez8dbg.cpp:807-888 | If instructions read program memory only by fetching and no breakpoint stands on an operand, any number of steps over planted breakpoints takes the CPU through the states of the bare program |
| Stepping.StepRepeatedly | ez8dbg.cpp:807-888 | Calling step n times performs exactly those n steps |
| Stepping.ClearExactly | ez8dbg.cpp:807-888 | What no breakpoint on an operand means: each is at the program counter or past the instruction, round the end of memory |
| Device.Fetched | ez8dbg.cpp:807-888 | The instruction a step executes: the byte the debugger supplies and those behind it in flash, round the end of memory |
| Transport.Ez8ocd.RdMem | ez8ocd.cpp:642-677 | Every size, address and mtu other than 1: the result and effect of one unsplit read, and never more than mtu bytes unread at the host |
| Transport.Ez8ocd.RdRegs | ez8ocd.cpp:573-611 | The same for the register file, cut at 256 bytes |
| Transport.Ez8ocd.RdData | ez8ocd.cpp:708-743 | The same for data memory |
| Transport.Ez8ocd.WrMem | ez8ocd.cpp:617-636 | The chip ends as after one unsplit write, and never more than mtu bytes are unread at the host |
| Transport.Ez8ocd.WrRegs | ez8ocd.cpp:539-567 | The same for the register file, cut at 256 bytes |
| Transport.Ez8ocd.WrData | ez8ocd.cpp:683-702 | The same for data memory |
| Transport.Ez8ocd.ReadSpace | ez8ocd.cpp:649-674 | The splitting loop of the three reads |
| Transport.Ez8ocd.ReadPiece | ez8ocd.cpp:652-672 | One read command; when command and answer together exceed the mtu the last command byte waits until the rest has been echoed |
| Transport.Ez8ocd.Write | ez8ocd.cpp:209-261 | Packets of at most mtu bytes, each drained before the next |
| Transport.Ez8ocd.LinkWrite | ocd_serial.cpp:143-221 | The packet's echo is read back and compared; what the chip answers stays unread; a short or different echo, and nothing else, fails and takes the link down |
| Transport.Ez8ocd.Drain | ocd_serial.cpp:184-218 | Success exactly when the bytes sent come back first |
| Transport.Ez8ocd.Read | ez8ocd.cpp:162-203 | Exactly when enough bytes are there, the bytes asked for, in order; otherwise a failure that takes the link down |
| Transport.HeaderDecodes | ez8ocd.cpp:548-559 | The chip, a byte at a time, decodes an encoded header to its address and length |
| Transport.CommandFields | ez8ocd.cpp:652-665 | Length 0 stands for 256 or 65536; a length of 0, which only an mtu of 1 would produce, asks for the largest transfer |
| Transport.CommandSpelled | ez8ocd.cpp:548-559 | Three command headers, byte by byte |
| Transport.UnsplitWrite | ez8ocd.cpp:617-636 | What one write command and its data do to the chip |
| Transport.SilentPiece | ez8ocd.cpp:209-261 | A message the chip answers only at its end may be cut anywhere |
| Transport.LoadStored | ez8ocd.cpp:617-677 | A read after a write returns the written bytes and leaves all others |
| Serial.SerialPort.Read | serialport.cpp:1111-1243 | For any stream and any pieces the system delivers it in: the first n decoded bytes, in place, stopping at the end of an item; a failure exactly when an error mark precedes the n-th byte |
| Serial.SerialPort.Unescape | serialport.cpp:1189-1238 | The inner loop decodes in place and never overtakes the bytes still to be decoded |
| Serial.SerialPort.ErrorPending | serialport.cpp:1516-1532 | True exactly when an error mark is next, for any count of bytes already read ahead; the read-ahead afterwards is Peeked of the one before, and with an empty buffer no byte is lost or reordered |
| Serial.PeekKeeps | serialport.cpp:1516-1532 | Entered with an empty read-ahead buffer, error() loses and reorders nothing |
| Serial.SerialPort.Fetch | serialport.cpp:1141-1153 | Bytes peeked earlier come first and in order |
| Serial.ReadsCompose | serialport.cpp:1111-1243 | Reading n and then m bytes is reading n + m |
| Serial.ExpectedExactly | serialport.cpp:1111-1243 | A read fails if and only if a line error comes before its last byte, and reports the first; otherwise it takes that many items or all there are |
| Serial.EscapeInjective | serialport.cpp:1114-1125 | Two item sequences with the same escaped form are equal |
| Serial.PeekLoses | serialport.cpp:1516-1532 | error() leaves the stream of bytes to come unchanged for every input if and only if the read-ahead buffer is empty: with anything in it the first bytes are overwritten |
| Serial.SerialPort.Flush | serialport.cpp:1437-1457 | Nothing is pending afterwards |
| Crc.CrcCcitt | crc.c:95-109 | The table loop computes the checksum defined bit by bit with the reflected polynomial 0x8408 |
| Crc.CheckValue | crc.c:95-109 | The checksum of the digits 1 to 9 is 0x906e |
| Crc.TableIsShifts | crc.c:23-56 | Each of the 256 literals is its index shifted eight times |
| Crc.TableStep | crc.c:104-106 | One table step is eight single-bit steps |
| Crc.GenCrcTable | crc.c:65-87 | The generator builds the same 256 entries |
| Crc.RegisterIsBitRegister | crc.c:95-109 | The byte-wise register is the bit-wise one over the whole message |
| Crc.ChecksumConcat | crcgen.c:144-154 | A result fed back in continues the checksum over the concatenation |
| Crc.ChecksumAffine | crc.c:95-109 | The checksum is affine over xor of messages of one length |
| Crc.ChecksumResidue | crc.c:95-109 | Any message followed by its own checksum, low byte first, has checksum 0x0F47 |
| Crc.WindowInjective | crc.c:95-109 | From one register, sixteen input bits act injectively |
| Crc.BurstDetected | crc.c:95-109 | Two different messages of one length that differ only inside sixteen consecutive bits have different checksums |
| Crc.SeventeenBitsCollide | crc.c:95-109 | Sixteen is the limit: two messages that differ only in their first seventeen bits and share a checksum |
| Md5.Context.constructor | md5c.c:99-109 | The state for the empty message |
| Md5.Context.MD5Update | md5c.c:115-153 | After any update: count is eight times the message length modulo 2^64 in two words, state has absorbed the full blocks, buffer holds the tail, where the message is all input so far |
| Md5.Context.MD5Final | md5c.c:158-183 | The digest of RFC 1321 of all input so far; the context is zeroed |
| Md5.DigestPieces | md5c.c:115-183 | However the input is cut into pieces that MD5Update can take one after the other, the digest is that of the pieces put together |
| Md5.MD5Transform | md5c.c:187-275 | The sixty-four unrolled lines are the table-driven operations of RFC 1321 section 3.4 with rotating registers |
| Md5.Round1 | md5c.c:194-213 | The sixteen unrolled lines of round 1 against operations 0 to 15 |
| Md5.Round2 | md5c.c:215-231 | Round 2 against operations 16 to 31 |
| Md5.Round3 | md5c.c:233-249 | Round 3 against operations 32 to 47 |
| Md5.Round4 | md5c.c:251-267 | Round 4 against operations 48 to 63 |
| Md5.ScheduleWords | md5c.c:196-267 | The message words of the four rounds are i, 5i + 1, 3i + 5 and 7i modulo 16 |
| Md5.AddBits | md5c.c:125-132 | The two words with carry are the bit count modulo 2^64 |
| Md5.TransformBlocks | md5c.c:142-144 | The block loop absorbs every full block and stops less than a block before the end |
| Md5.UpdateOverruns | md5c.c:142 | With bytes buffered and an input that takes the sum past 2^32 the 32-bit loop test wraps and the loop would run past the input: the case MD5Update excludes |
| Md5.PaddedFillsBlocks | md5c.c:166-172 | The padded message is whole blocks |
| Md5.AbsorbConcat | md5c.c:142-144 | Absorbing a whole number of blocks and then more is absorbing both |
| Md5.Encode | md5c.c:280-293 | Each word becomes four bytes, low-order first |
| Md5.Decode | md5c.c:298-310 | Four bytes become a word, low-order first |
| Md5.DecodeEncoded | md5c.c:280-310 | Decode undoes Encode |
| Md5Laws.AbcDigest | md5c.c:99-183 | The digest of "abc" of RFC 1321 section A.5, through all 64 operations: a wrong constant, rotation, word order, padding or initial state changes it |
| Md5Laws.FSelects | md5c.c:64 | Where a bit of x is set F takes that of y, elsewhere that of z |
| Md5Laws.GIsF | md5c.c:65 | G is F with z choosing between x and y |
| Md5Laws.HDiffers | md5c.c:66 | H differs from z exactly in the bits in which x and y differ |
| Md5Laws.ISelects | md5c.c:67 | Where a bit of z is set I compares x and y, elsewhere it negates y |
| Md5Laws.Rotates | md5c.c:71 | Every rotation used is the rotation of the 32 bits |
| Md5.MD5StrToDigest | md5c.c:339-369 | Succeeds exactly when the first 32 characters are hex digits, with the bytes they spell |
| Hexfile.ReadPrinted | hexfile.c:492-526 | Reading what was printed for any buffer at any offset restores those bytes there and touches nothing else, whatever 64K boundaries the records cross |
| Hexfile.ReadSegment | hexfile.c:120-186 | Behind a segment record, byte k of a data record lands at sixteen times the segment plus its offset, which wraps at 64K; such a file is accepted exactly when all those cells are inside the buffer and free, and the rest of the buffer stays |
| Hexfile.ReadLinear | hexfile.c:120-186 | The same behind a linear record, at 64K times its word plus the offset, wrapping at 4 GiB |
| Hexfile.OneRecordSpelled | hexfile.c:505-526 | The three lines of such a file, letter by letter |
| Hexfile.WrHexfile | hexfile.c:474-530 | From every start from which the loop ends (PrintsForever for the others) it prints exactly the specified records, address records included |
| Hexfile.PrintsForever | hexfile.c:492-502 | From any other start, where some record begins at or beyond 4 GiB, the loop never ends: sixteen bits cannot hold the upper address it compares with |
| Hexfile.PrintsLines | hexfile.c:492-526 | Where the loop does end, its rounds print the specified records, one each |
| Hexfile.PrintRecord | hexfile.c:505-523 | A record printed byte by byte with its running checksum |
| Hexfile.LineParses | hexfile.c:505-523 | Every printed line is accepted and yields the record printed |
| Hexfile.RdIhex | hexfile.c:26-195 | The reader computes, in place, what the record-by-record definition says, and succeeds exactly when that does |
| Hexfile.ReadToken | hexfile.c:44-118 | Digits to nibbles to bytes in place, size and checksum tests: the record or a rejection |
| Hexfile.ToNibbles | hexfile.c:56-72 | All characters are digits or the line is rejected; then each cell holds its digit's value |
| Hexfile.Pack | hexfile.c:89-94 | Pairs of nibbles become bytes in place |
| Hexfile.AddUp | hexfile.c:95-100 | The sum of the bytes modulo 256 |
| Hexfile.StoreRecord | hexfile.c:121-144 | The stores of one data record, up to the first that is out of range or overlaps |
| Hexfile.ReadStores | hexfile.c:26-195 | A file is accepted if and only if its records are well formed and every data byte falls inside the buffer on a cell still holding the fill byte; the buffer is then the old one with those bytes at their effective segment or linear addresses |
| Hexfile.StoresStay | hexfile.c:133-143 | After an accepted file every byte that is not the fill is at its address, and every cell is as before or holds a byte stored there |
| Hexfile.LineDigitError | hexfile.c:56-107 | Replacing any one digit of an accepted line by a digit of another value makes it rejected |
| Hexfile.DigitError | hexfile.c:56-107 | The same for the token alone |
| Sockstream.Sock.Flush | sockstream.c:101-123 | Everything printed is handed over, in order, in whatever pieces the network takes |
| Sockstream.Sock.Printf | sockstream.c:186-219 | A string shorter than the buffer is appended to the stream; a longer one is dropped |
| Sockstream.Sock.Gets | sockstream.c:135-175 | The next line of the stream and nothing more, for any pieces the network delivers, while lines are shorter than the buffer |
| Protocol.WriteArrives | server.cpp:741-793 | The server hands to the link exactly the 1 to 65536 bytes the client printed and takes nothing behind the blank line |
| Protocol.ReadArrives | ocd_tcpip.cpp:827-867 | The client gets exactly the bytes the server printed and leaves exactly one blank line |
| Protocol.SecondRead | ocd_tcpip.cpp:800-814 | That blank line makes the next read compare a null pointer |
| Protocol.SizeArrives | server.cpp:656-713 | The size the client printed in hex is read back, and that many bytes answered |
| Protocol.WriteWhileDown | server.cpp:795-801 | A WRITE while the link is down writes nothing, and the client reads the reply as a refusal |
| Protocol.ReadRefused | server.cpp:675-694 | So with a READ while the link is down or has too few bytes |
| Protocol.WriteTooMuch | server.cpp:767-790 | A WRITE of more than 64K bytes writes nothing, the rest is skipped, and the client takes the reply for garbage |
| Protocol.BadWordRefused | server.cpp:767-779 | A WRITE with a word that is no number, behind any rows: nothing is written, the lines up to the blank one are skipped, and the reply is a refusal |
| Protocol.BadSizeRefused | server.cpp:656-673 | A READ without a size, or with a word that is no number, takes nothing and is refused |
| Protocol.UnknownRefused | server.cpp:939-940 | A word that is no command of the server is refused |
| Protocol.PrintingRows | ocd_tcpip.cpp:918-938 | The byte loop prints rows of eight words |
| Protocol.CollectRows | server.cpp:749-793 | The words of any rows are collected up to the blank line |
| Protocol.ReceiveRows | ocd_tcpip.cpp:827-860 | The words of any rows are received, the blank line is not |
| Text.WordIsToken | server.cpp:751 | A word between delimiters is the next token |
| Text.SameWordExactly | server.cpp:875 | Words are the same when they are as long and agree letter by letter but for case |
| Text.LowerExactly | server.cpp:875 | Case means the twenty-six letters and nothing else |
| Text.SizeRead | ocd_tcpip.cpp:783 | A number printed with 0x%04X is read back by strtoul |
| Text.ByteRead | ocd_tcpip.cpp:925 | A byte printed with 0x%02x is read back by strtol |
| Text.NumbersSpelled | server.cpp:662 | Decimal, octal, hexadecimal and signed numbers, and what is none, as strtoul and strtol with base 0 read them |
| Tcp.PrintBytes | server.cpp:700-713 | The printing loop of both ends |
| Tcp.Server.Gather | server.cpp:749-793 | The token loop of a WRITE: data, too much, bad data or a closed connection |
| Tcp.Server.ClientWrite | server.cpp:741-817 | Effect of a WRITE on the link, the stream and the reply, in every case |
| Tcp.Server.ClientRead | server.cpp:651-718 | Effect of a READ, in every case |
| Tcp.Server.ClientFlush | server.cpp:229-247 | Skips to behind the next line without a word |
| Tcp.Server.Request | server.cpp:850-945 | One request of an authenticated client |
| Tcp.OcdTcpip.SendWrite | ocd_tcpip.cpp:874-946 | What write prints, and when it refuses |
| Tcp.OcdTcpip.WriteReply | ocd_tcpip.cpp:955-1005 | Accepted, rejected or broken: result and the open and up flags |
| Tcp.OcdTcpip.SendRead | ocd_tcpip.cpp:759-798 | What read prints, and when it refuses |
| Tcp.OcdTcpip.ReadData | ocd_tcpip.cpp:800-870 | The bytes, or why not: result and the open and up flags |
| Tcp.WriteThrough | ocd_tcpip.cpp:874-1006 | A whole write over both streams, cut anywhere, also behind a read that has left its blank line: the link gets the bytes once, and nothing is left in either stream |
| Tcp.ReadThrough | ocd_tcpip.cpp:759-870 | A whole read over both streams, cut anywhere: the client gets the link's bytes and only the blank line is left |
| Tcp.Converse | ocd_tcpip.cpp:759-1006 | Any run of reads and writes in which no read follows a read straight away: the link is written the bytes of all writes in order, and the reads return successive pieces of what the link has |
| Tcp.WriteWhileLinkDown | ocd_tcpip.cpp:874-1006 | A whole write while the server's link is down: it fails, nothing is written, the client takes its link down and stays connected |
| Tcp.WriteOversize | ocd_tcpip.cpp:874-1006 | A whole write of more than 64K bytes: it fails, nothing is written, the client gives the connection up |
| Tcp.ReadUnserved | ocd_tcpip.cpp:759-870 | A whole read the link cannot serve: it fails and takes nothing, the client takes its link down and stays connected |
| Tcp.BlankIsSkipped | ocd_tcpip.cpp:955-972 | The blank line a read leaves is skipped by the reply loop of the next write |
| Auth.KnownPasswordAccepted | ocd_tcpip.cpp:344-460 | For every user list and every name the server answers with a challenge: whoever knows the (nonempty) password of the entry selected by the name it hears is accepted, whether each side writes it plainly or as md5= and its hash, and whatever blank lines come before the challenge |
| Auth.LoginUnderstood | ocd_tcpip.cpp:344-377 | Credentials split at the first colon into a user line and a password hash |
| Auth.AcceptsExactly | server.cpp:484-531 | The server accepts exactly when an entry is selected, its password is readable, and its hash behind the challenge hashes to what the client's does |
| Auth.LookupPassword | server.cpp:303-347 | The pointer walk over the list finds the first entry of that name, compared without case, or else the first with an empty name |
| Auth.HashedForm | server.cpp:490-508 | A password written as md5= and its hash, in either case of digits, counts as the password |
| Auth.AbcSecret | server.cpp:490-508 | The password "abc" counts as the digest RFC 1321 section A.5 gives for it |
| Auth.PasswordBytes | server.cpp:497-508 | The bytes hashed are the characters of the password |
| Auth.TailSecret | server.cpp:490-508 | Looking at the rest of the list instead of the entry's password makes no difference |
| Auth.ChallengeRead | ocd_tcpip.cpp:403-445 | The client understands the printed challenge and answers with the hash of challenge and password hash |
| Auth.UserLineRead | server.cpp:283-383 | The server is asked for exactly the client's name if and only if that is one word without a #; a word with one in it gets an error instead of a challenge |
| Auth.HeardIsLookedUp | server.cpp:290-383 | Whenever the server answers with a challenge, the entry it has selected is that of the name it heard |
| Auth.SearchList | server.cpp:303-325 | The search loop |
| Auth.AuthServer.Request | server.cpp:283-425 | Reply to the user line, and what is kept for the check |
| Auth.AuthServer.Check | server.cpp:427-541 | Reply to the response; authenticated exactly when it is accepted |
| Auth.StoredSecret | server.cpp:490-508 | The hash of the entry's password |
| Auth.Answer | ocd_tcpip.cpp:392-460 | The client's answer to the first line that is not blank, or a failure if that is no challenge or the connection closes before |
| Auth.BlanksSkipped | ocd_tcpip.cpp:392-412 | Blank lines before the challenge make no difference |
| Auth.Login | ocd_tcpip.cpp:344-385 | The user line and the secret, or a refusal of a missing or empty name or password or of a bad digest |
| Dump.DumpDataRepeat | dump.c:110-152 | For every block on which each round moves forward: lines and summaries tile it in order, each summary over equal bytes, and the labels are right if and only if the opening summaries are all of it or their number times the starting column is a multiple of sixteen |
| Dump.TilesExactly | dump.c:110-152 | For every block, column and minrepeat: what is printed tiles the block if and only if every round moves forward |
| Dump.EndsExactly | dump.c:110-152 | For every block, column and minrepeat: the dump ends inside its block if and only if it does so within twice as many rounds as there are bytes, and three |
| Dump.AdvancingEnds | dump.c:110-152 | A dump on which every round moves forward ends inside its block |
| Dump.RetreatEnds | dump.c:121-129 | The converse fails off a boundary: a dump that moves back three times and still ends |
| Dump.LabelledExactly | dump.c:110-152 | Every label is right if and only if no line is printed, or the number of summaries the dump opens with times the starting column is a multiple of sixteen |
| Dump.DumpData | dump.c:65-83 | Lines tile the block in order and are always labelled right |
| Dump.ColumnsKeptExactly | dump.c:110-152 | The column variable itself agrees with the address at every step if and only if the block starts at a sixteen-byte boundary, does not open with a summary, or is a single run |
| Dump.LostColumn | dump.c:117-136 | A dump of 32 bytes at address 1 whose second part is labelled wrongly |
| Dump.LongRunsAdvance | dump.c:117-129 | With minrepeat 0 or at least 16 every round moves forward, from any column |
| Dump.RepeatProgress | dump.c:121-129 | The count of a summary is zero or negative exactly when the run is not the rest of the block and ends before the next boundary, and is then minus the column: no movement, or one back by the column |
| Dump.StuckForever | dump.c:110-152 | A dump from a sixteen-byte boundary on which some round does not move forward never ends |

## Left out

- MD5Update and DigestPieces: inputs that together with the buffered bytes reach 2^32 while bytes are buffered, for which the 32-bit loop test wraps (UpdateOverruns).
- ResetChip: what a reset does to the chip is not modelled; the wait for the reset to finish is a number of polls.
- WrRegs: a range that ends between the register file and 64K is a precondition, as in the assertion of ez8ocd.cpp, which the debugger's own check lets through.
- CachedDbgstat: only the read-protect bit of the status is related to the chip; the chip of the model has no other.
- FlashSetup: the system clock behind the two frequency bytes is a pair of unconstrained parameters, and the commands that measure it are not modelled.
- FlashPageErase: erasing is complete when the command returns, so the poll loop and its timeout are one status read.
- MassErase: the same, and the information area it may also erase is not modelled.
- RdMem, RdRegs, RdData and ReadSpace of the transport: an mtu of 1 is excluded, since the code then asks for pieces of length 0 (CommandFields).
- LinkWrite: the test for a line error before the packet, with its reset, and the timeout it sets are not modelled.
- Flush: the network always takes at least a byte; send errors are not modelled.
- Gets: lines leave room for the terminator, as every line of the protocol does; the copies of the source are not bounded by the room left, so the model says nothing about longer ones.
- ClientWrite: the link behind the server does not fail while writing, so the case in which the reply is sent twice is missing.
- ClientRead: the link behind the server fails a read only when it has too few bytes.
- Request: commands other than READ, WRITE and the blank one are answered as invalid.
- ReadData: needs a reply that does not start with a blank line; with one the client compares a null pointer (SecondRead).
- Login and Answer: the STATUS exchange that opens the handshake and the reading of the server's verdict at its end.
- DumpDataRepeat: needs every round to move forward, exactly the blocks on which what it prints tiles the block (TilesExactly); which others still end is given by EndsExactly, but what those print is not.
- WrMem and Rewrite: on a write that reaches beyond the memory size, when the host goes by checksums, only coherence, the refusals and the rest of the chip are stated.
- Replay: addresses below the memory size, when the host goes by checksums; beyond it nothing vouches for the copy.
- KnownPasswordAccepted: user names with a newline, which reach the server as two lines.
- The information area (`rd_info`, `wr_info`, page-select bit 7) repeats the page logic on one page.
- `run_to`, `run_clks`, `next`, trace commands and the baud-rate reload register; a temporary breakpoint is modelled only as something `stop` and `isrunning` remove.
- Timeouts, the system clock computation and `set_timeout`.
- The destination pointers of reads are returned sequences; the debugger's scratch buffers are locals, so that aliasing between them is not captured.
- The socket buffers and the hexfile's bytes behind `*buff` are sequences reassigned by the methods, not arrays shifted in place.
- Errors are an enumeration instead of message texts; an exception is a `Fail` result.
- The static checksum table is a function of sixteen rows of sixteen literals instead of an array.
- `rd_srec` and `rd_hexfile`: there is no printer for S-records to pair the reader with.
- Lines of a hexfile longer than BUFSIZ and a file that cannot be opened.
- NUL characters inside lines, and numbers beyond the range of a long in the TCP protocol.
- Send and receive errors of the socket other than the peer closing; the failing link write after which `client_write` replies twice; the bound the server does not put on the size of a READ.
- The server's commands other than READ, WRITE and USER, the version exchange, and plaintext authentication.
- The printed form of a dump line (hex and character columns); a line is its address, column and bytes.
- `monitor.cpp`, `tclmon.cpp`, `setup.cpp`, `trace.cpp`, `disassembler.c`, `cfg.cpp` and the parallel-port and Windows bodies: prompts, tables, glue and system calls.
