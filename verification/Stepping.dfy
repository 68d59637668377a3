/** Single stepping over planted breakpoints: the CPU goes through the states it would go
    through if the user's program were in flash as loaded. */
module Stepping {

  import opened Ez8
  import opened Device
  import opened Ez8dbg
  import opened Memory
  import opened Session

  /** What one call of step does to the chip (every revision but 0x0100). */
  function StepChip(isa: Isa, chip: Chip, bps: seq<Breakpoint>): Chip {
    var k := IndexOf(bps, chip.core.pc);
    Execute(isa, chip, if k < |bps| then bps[k].data else Opcode(chip))
  }

  function StepMany(isa: Isa, chip: Chip, bps: seq<Breakpoint>, n: nat): Chip
    decreases n
  {
    if n == 0 then chip else StepChip(isa, StepMany(isa, chip, bps, n - 1), bps)
  }

  /** The bare CPU, no debugger: `n` instructions from flash. */
  function ExecuteMany(isa: Isa, chip: Chip, n: nat): Chip
    decreases n
  {
    if n == 0 then chip else
      var c := ExecuteMany(isa, chip, n - 1);
      Execute(isa, c, Opcode(c))
  }

  /** Instructions read program memory only by fetching, and never write it. */
  ghost predicate FetchOnly(isa: Isa) {
    forall c: Core, i: seq<Byte>, f: Image, g: Image ::
      isa.execute(c, i, f).1 == f && isa.execute(c, i, f).0 == isa.execute(c, i, g).0
  }

  /** No breakpoint stands on an operand of the instruction at the program counter. */
  predicate OperandsClear(isa: Isa, chip: Chip, bps: seq<Breakpoint>) {
    forall k :: 1 <= k < isa.length(Opcode(chip)) ==> !IsSet(bps, Ahead(chip.core.pc, k))
  }

  /** The chip as it would be with the user's program in flash. */
  function Unplanted(chip: Chip, bps: seq<Breakpoint>): Chip {
    chip.(flash := Logical(chip.flash, bps))
  }

  lemma FetchSame(isa: Isa, chip: Chip, bps: seq<Breakpoint>)
    requires Distinct(bps) && OperandsClear(isa, Unplanted(chip, bps), bps)
    ensures var u := Unplanted(chip, bps);
      && var k := IndexOf(bps, chip.core.pc);
      && (if k < |bps| then bps[k].data else Opcode(chip)) == Opcode(u)
      && Fetch(isa, Opcode(u), chip.flash, chip.core.pc) == Fetch(isa, Opcode(u), u.flash, chip.core.pc)
  {
    hide Logical, IndexOf, IsSet, Ahead;
    var u := Unplanted(chip, bps);
    LogicalAt(chip.flash, bps, chip.core.pc);
    assert IndexOf(bps, chip.core.pc) < |bps| <==> IsSet(bps, chip.core.pc);
    forall k | 1 <= k < isa.length(Opcode(u))
      ensures chip.flash[Ahead(chip.core.pc, k)] == u.flash[Ahead(chip.core.pc, k)]
    {
      LogicalAt(chip.flash, bps, Ahead(chip.core.pc, k));
    }
  }

  lemma StepSame(isa: Isa, chip: Chip, bps: seq<Breakpoint>)
    requires FetchOnly(isa) && Distinct(bps) && OperandsClear(isa, Unplanted(chip, bps), bps)
    ensures var u := Unplanted(chip, bps);
      Unplanted(StepChip(isa, chip, bps), bps) == Execute(isa, u, Opcode(u))
    ensures StepChip(isa, chip, bps).flash == chip.flash
  {
    hide Logical, Fetch, IndexOf;
    FetchSame(isa, chip, bps);
  }

  /** For any number of steps, stepping on instrumented flash and running the user's program
      bare pass through the same CPU states, and the planted flash is never disturbed. */
  lemma {:induction false} StepsSame(isa: Isa, chip: Chip, bps: seq<Breakpoint>, n: nat)
    requires FetchOnly(isa) && Distinct(bps)
    requires forall k :: 0 <= k < n ==> OperandsClear(isa, ExecuteMany(isa, Unplanted(chip, bps), k), bps)
    ensures Unplanted(StepMany(isa, chip, bps, n), bps) == ExecuteMany(isa, Unplanted(chip, bps), n)
    ensures StepMany(isa, chip, bps, n).flash == chip.flash
    decreases n
  {
    hide Logical, FetchOnly, OperandsClear, StepChip, Execute;
    if n > 0 {
      StepsSame(isa, chip, bps, n - 1);
      assert OperandsClear(isa, ExecuteMany(isa, Unplanted(chip, bps), n - 1), bps);
      StepSame(isa, StepMany(isa, chip, bps, n - 1), bps);
    }
  }

  /** The debugger's step performs exactly these steps. */
  method StepRepeatedly(d: Debugger, n: nat)
    requires d.Coherent() && d.Ready() && d.dev.revid != 0x0100
    modifies d, d.mainMem, d.dev
    ensures d.Coherent() && d.Ready() && d.breakpoints == old(d.breakpoints)
    ensures d.dev.chip == StepMany(d.dev.isa, old(d.dev.chip), d.breakpoints, n)
    ensures d.Mem() == old(d.Mem())
  {
    hide MemorySize, ImageCrc, HasBit, Execute, IndexOf;
    for i := 0 to n
      invariant d.Coherent() && d.Ready() && d.breakpoints == old(d.breakpoints) && d.Mem() == old(d.Mem())
      invariant d.dev.chip == StepMany(d.dev.isa, old(d.dev.chip), d.breakpoints, i)
    {
      var _ := d.Step();
    }
  }

  function Distance(pc: Address, a: Address): (d: nat)
    ensures d < 0x10000 && Ahead(pc, d) == a
  {
    if a >= pc then a - pc else 0x10000 + a - pc
  }

  lemma DistanceAhead(pc: Address, k: nat)
    requires k < 0x10000
    ensures Distance(pc, Ahead(pc, k)) == k
  {}

  /** The operands are clear when every breakpoint is on the opcode itself or past its operands. */
  lemma ClearExactly(isa: Isa, chip: Chip, bps: seq<Breakpoint>)
    requires isa.length(Opcode(chip)) <= 0x10000
    ensures OperandsClear(isa, chip, bps) <==>
      forall j :: 0 <= j < |bps| ==>
        var d := Distance(chip.core.pc, bps[j].address);
        d == 0 || d >= isa.length(Opcode(chip))
  {
    hide Ahead, Distance, Opcode;
    var pc, n := chip.core.pc, isa.length(Opcode(chip));
    if OperandsClear(isa, chip, bps) {
      forall j | 0 <= j < |bps|
        ensures Distance(pc, bps[j].address) == 0 || Distance(pc, bps[j].address) >= n
      {
        var d := Distance(pc, bps[j].address);
        assert IsSet(bps, Ahead(pc, d));
      }
    } else {
      var k :| 1 <= k < n && IsSet(bps, Ahead(pc, k));
      var j :| 0 <= j < |bps| && bps[j].address == Ahead(pc, k);
      DistanceAhead(pc, k);
    }
  }

  /** There are such instruction sets: one that only counts on. */
  lemma CountingFetchesOnly()
    ensures FetchOnly(Isa(_ => 1, (c: Core, i: seq<Byte>, f: Image) => (c.(pc := Ahead(c.pc, 1)), f)))
  {}
}
