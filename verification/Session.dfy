/** Debugging sessions: what any run of breakpoint, read and write operations does to the chip,
    and why the program the user loaded is still there underneath. */
module Session {

  import opened Ez8
  import opened Device
  import opened Ez8dbg
  import opened Memory

  datatype State = State(flash: Image, bps: seq<Breakpoint>)

  datatype Op =
    | SetBp(address: Address)
    | RemoveBp(address: Address)
    | Write(at: nat, data: seq<Byte>)
    | Read(from: nat, size: nat)

  predicate InRange(op: Op, limit: nat)
    requires limit <= EZ8MEM_SIZE
  {
    match op
    case SetBp(a) => a < limit
    case RemoveBp(a) => a < limit
    case Write(a, data) => a + |data| <= limit
    case Read(a, n) => a + n <= limit
  }

  predicate AllInRange(ops: seq<Op>, limit: nat)
    requires limit <= EZ8MEM_SIZE
  {
    forall op :: op in ops ==> InRange(op, limit)
  }

  /** The effect of one operation on flash and on the breakpoint list. */
  function Next(s: State, op: Op): State
    requires InRange(op, EZ8MEM_SIZE)
  {
    match op
    case SetBp(a) =>
      if a == 0 || IsSet(s.bps, a) then s else State(s.flash[a := 0], s.bps + [Breakpoint(a, s.flash[a])])
    case RemoveBp(a) =>
      var k := IndexOf(s.bps, a);
      if k == |s.bps| then s else State(s.flash[a := s.bps[k].data], WithoutAt(s.bps, k))
    case Write(a, data) => State(Overlay(s.flash, a, data), s.bps)
    case Read(_, _) => s
  }

  function Run(s: State, ops: seq<Op>): State
    requires AllInRange(ops, EZ8MEM_SIZE)
    decreases |ops|
  {
    if ops == [] then s else Next(Run(s, ops[..|ops| - 1]), ops[|ops| - 1])
  }

  /** The user's program: flash with the saved opcodes back in place. */
  function Program(s: State): Image {
    Logical(s.flash, s.bps)
  }

  /** Breakpoints sit at distinct addresses other than zero, and each is planted. */
  predicate Planted(s: State) {
    && (forall k :: 0 <= k < |s.bps| ==> s.bps[k].address != 0 && s.flash[s.bps[k].address] == 0)
    && Distinct(s.bps)
  }

  /** A write that covers no breakpoint. */
  predicate Avoids(s: State, op: Op) {
    op.Write? ==> forall k :: 0 <= k < |s.bps| ==> !(op.at <= s.bps[k].address < op.at + |op.data|)
  }

  predicate AllAvoid(s: State, ops: seq<Op>)
    requires AllInRange(ops, EZ8MEM_SIZE)
    decreases |ops|
  {
    ops == [] ||
    (AllAvoid(s, ops[..|ops| - 1]) && Avoids(Run(s, ops[..|ops| - 1]), ops[|ops| - 1]))
  }

  /** What the user asked for: an image with only the writes applied. */
  function Written(m: Image, ops: seq<Op>): Image
    requires AllInRange(ops, EZ8MEM_SIZE)
    decreases |ops|
  {
    if ops == [] then m else
      var w := Written(m, ops[..|ops| - 1]);
      var op := ops[|ops| - 1];
      assert InRange(op, EZ8MEM_SIZE);
      if op.Write? then Overlay(w, op.at, op.data) else w
  }

  /** What the reads of a run return when breakpoints are invisible. */
  function Reads(m: Image, ops: seq<Op>): seq<seq<Byte>>
    requires AllInRange(ops, EZ8MEM_SIZE)
    decreases |ops|
  {
    if ops == [] then [] else
      var op := ops[|ops| - 1];
      assert InRange(op, EZ8MEM_SIZE);
      var before := ops[..|ops| - 1];
      if op.Read? then Reads(m, before) + [Written(m, before)[op.from..op.from + op.size]] else Reads(m, before)
  }

  // ----- The image behind the breakpoints -----

  lemma {:induction false} LogicalAt(flash: Image, bps: seq<Breakpoint>, i: Address)
    requires Distinct(bps)
    ensures Logical(flash, bps)[i] == if IsSet(bps, i) then bps[IndexOf(bps, i)].data else flash[i]
    decreases |bps|
  {
    hide IndexOf, IsSet, Distinct;
    if bps == [] {
      FindLast(bps, i);
    } else {
      FindLast(bps, i);
      LogicalAt(flash, bps[..|bps| - 1], i);
    }
  }

  /** Where an address is found, by the last entry. */
  lemma FindLast(bps: seq<Breakpoint>, i: Address)
    requires Distinct(bps)
    ensures bps == [] ==> !IsSet(bps, i)
    ensures bps != [] ==>
      var n := |bps| - 1;
      var before := bps[..n];
      && Distinct(before)
      && (IsSet(bps, i) <==> bps[n].address == i || IsSet(before, i))
      && (IsSet(bps, i) ==> bps[IndexOf(bps, i)] == if bps[n].address == i then bps[n] else before[IndexOf(before, i)])
  {
    hide IndexOf, IsSet;
    SetAt(bps, i);
    if bps != [] {
      var n := |bps| - 1;
      var before := bps[..n];
      SetAt(before, i);
      if bps[n].address == i {
        IndexUnique(bps, n);
      } else if IsSet(before, i) {
        var k := IndexOf(before, i);
        assert before[k] == bps[k];
        IndexUnique(bps, k);
      }
    }
  }

  lemma {:induction false} IndexUnique(bps: seq<Breakpoint>, k: nat)
    requires k < |bps| && Distinct(bps)
    ensures IndexOf(bps, bps[k].address) == k
  {
    IndexOfFirst(bps, bps[k].address, k);
  }

  lemma AppendFind(bps: seq<Breakpoint>, b: Breakpoint, i: Address)
    requires Distinct(bps) && !IsSet(bps, b.address)
    ensures var more := bps + [b];
      && Distinct(more)
      && (IsSet(more, i) <==> IsSet(bps, i) || i == b.address)
      && (IsSet(more, i) ==> more[IndexOf(more, i)] == if i == b.address then b else bps[IndexOf(bps, i)])
  {
    var more := bps + [b];
    assert forall k :: 0 <= k < |bps| ==> more[k] == bps[k];
    if i == b.address {
      assert more[|bps|].address == i;
      IndexUnique(more, |bps|);
    } else if IsSet(bps, i) {
      var k := IndexOf(bps, i);
      assert more[k] == bps[k];
      IndexUnique(more, k);
    }
  }

  lemma SetKeeps(s: State, a: Address)
    requires Planted(s)
    ensures Planted(Next(s, SetBp(a))) && Program(Next(s, SetBp(a))) == Program(s)
  {
    hide Logical, IsSet;
    var t := Next(s, SetBp(a));
    if t != s {
      AppendFind(s.bps, Breakpoint(a, s.flash[a]), a);
      forall i: Address | i < EZ8MEM_SIZE
        ensures Program(t)[i] == Program(s)[i]
      {
        AppendFind(s.bps, Breakpoint(a, s.flash[a]), i);
        LogicalAt(s.flash, s.bps, i);
        LogicalAt(t.flash, t.bps, i);
      }
    }
  }

  predicate Distinct(bps: seq<Breakpoint>) {
    forall k, l :: 0 <= k < l < |bps| ==> bps[k].address != bps[l].address
  }

  /** Deleting an entry takes its address out of the list and leaves the others findable. */
  lemma WithoutFind(bps: seq<Breakpoint>, n: nat, i: Address)
    requires n < |bps| && Distinct(bps)
    ensures var rest := WithoutAt(bps, n);
      && Distinct(rest)
      && (IsSet(rest, i) <==> IsSet(bps, i) && i != bps[n].address)
      && (IsSet(rest, i) ==> rest[IndexOf(rest, i)] == bps[IndexOf(bps, i)])
  {
    hide WithoutAt, IndexOf, IsSet;
    var rest := WithoutAt(bps, n);
    WithoutIndex(bps, n);
    SetAt(bps, i);
    SetAt(rest, i);
    IndexUnique(bps, n);
    if IsSet(bps, i) && i != bps[n].address {
      var k := IndexOf(bps, i);
      var l := if k < n then k else k - 1;
      assert rest[l] == bps[k];
      IndexUnique(rest, l);
    }
    if IsSet(rest, i) {
      var l := IndexOf(rest, i);
      var k := if l < n then l else l + 1;
      assert bps[k].address == i;
      IndexUnique(bps, k);
    }
  }

  lemma WithoutIndex(bps: seq<Breakpoint>, n: nat)
    requires n < |bps|
    ensures var rest := WithoutAt(bps, n);
      |rest| == |bps| - 1 && forall k :: 0 <= k < |rest| ==> rest[k] == bps[if k < n then k else k + 1]
  {}

  lemma SetAt(bps: seq<Breakpoint>, i: Address)
    ensures forall k :: 0 <= k < |bps| && bps[k].address == i ==> IsSet(bps, i)
    ensures IsSet(bps, i) ==> IndexOf(bps, i) < |bps| && bps[IndexOf(bps, i)].address == i
  {}

  lemma RemoveKeeps(s: State, a: Address)
    requires Planted(s)
    ensures Planted(Next(s, RemoveBp(a))) && Program(Next(s, RemoveBp(a))) == Program(s)
    ensures forall b :: b in Next(s, RemoveBp(a)).bps ==> b in s.bps && b.address != a
  {
    hide Logical, WithoutAt, IsSet;
    var t := Next(s, RemoveBp(a));
    var n := IndexOf(s.bps, a);
    if n < |s.bps| {
      forall i: Address | i < EZ8MEM_SIZE
        ensures Program(t)[i] == Program(s)[i]
      {
        LogicalAt(s.flash, s.bps, i);
        WithoutFind(s.bps, n, i);
        LogicalAt(t.flash, t.bps, i);
      }
      WithoutMembers(s.bps, n);
      WithoutFind(s.bps, n, a);
      forall k | 0 <= k < |t.bps|
        ensures t.bps[k].address != 0 && t.flash[t.bps[k].address] == 0
      {
        assert t.bps[k] in t.bps;
        var l :| 0 <= l < |s.bps| && s.bps[l] == t.bps[k];
      }
    }
    NotSet(t.bps, a);
  }

  lemma NotSet(bps: seq<Breakpoint>, a: Address)
    ensures IndexOf(bps, a) == |bps| ==> forall b :: b in bps ==> b.address != a
  {}

  lemma WithoutMembers(bps: seq<Breakpoint>, n: nat)
    requires n < |bps|
    ensures forall b :: b in WithoutAt(bps, n) ==> b in bps
    ensures Distinct(bps) ==> forall b :: b in WithoutAt(bps, n) ==> b.address != bps[n].address
  {}

  lemma WriteAt(s: State, a: nat, data: seq<Byte>, i: Address)
    requires Planted(s) && a + |data| <= EZ8MEM_SIZE
    ensures Program(Next(s, Write(a, data)))[i] ==
            if IsSet(s.bps, i) then s.bps[IndexOf(s.bps, i)].data else Overlay(s.flash, a, data)[i]
    ensures Overlay(Program(s), a, data)[i] ==
            if a <= i < a + |data| then data[i - a]
            else if IsSet(s.bps, i) then s.bps[IndexOf(s.bps, i)].data else s.flash[i]
  {
    LogicalAt(s.flash, s.bps, i);
    LogicalAt(Overlay(s.flash, a, data), s.bps, i);
  }

  /** wr_mem never looks at the breakpoint list. A write reaches the user's program exactly
      when, at every breakpoint it covers, it writes the opcode that was already saved there. */
  lemma WriteReaches(s: State, a: nat, data: seq<Byte>)
    requires Planted(s) && a + |data| <= EZ8MEM_SIZE
    ensures Program(Next(s, Write(a, data))) == Overlay(Program(s), a, data) <==>
            forall k :: 0 <= k < |s.bps| && a <= s.bps[k].address < a + |data| ==>
              data[s.bps[k].address - a] == s.bps[k].data
  {
    hide Logical;
    var p, q := Program(Next(s, Write(a, data))), Overlay(Program(s), a, data);
    if p == q {
      forall k | 0 <= k < |s.bps| && a <= s.bps[k].address < a + |data|
        ensures data[s.bps[k].address - a] == s.bps[k].data
      {
        WriteAt(s, a, data, s.bps[k].address);
        IndexUnique(s.bps, k);
      }
    } else if forall k :: 0 <= k < |s.bps| && a <= s.bps[k].address < a + |data| ==>
              data[s.bps[k].address - a] == s.bps[k].data {
      forall i: Address | i < EZ8MEM_SIZE
        ensures p[i] == q[i]
      {
        WriteAt(s, a, data, i);
      }
    }
  }

  lemma NextKeeps(s: State, op: Op)
    requires Planted(s) && InRange(op, EZ8MEM_SIZE) && Avoids(s, op)
    ensures Planted(Next(s, op))
    ensures Program(Next(s, op)) == if op.Write? then Overlay(Program(s), op.at, op.data) else Program(s)
  {
    match op
    case SetBp(a) => SetKeeps(s, a);
    case RemoveBp(a) => RemoveKeeps(s, a);
    case Write(a, data) => WriteReaches(s, a, data);
    case Read(_, _) =>
  }

  /** Over every run whose writes avoid the breakpoints set at the time, the user's program
      changes by those writes alone, and every breakpoint stays planted. */
  lemma {:induction false} RunKeepsProgram(s: State, ops: seq<Op>)
    requires Planted(s) && AllInRange(ops, EZ8MEM_SIZE) && AllAvoid(s, ops)
    ensures Planted(Run(s, ops)) && Program(Run(s, ops)) == Written(Program(s), ops)
    decreases |ops|
  {
    if ops != [] {
      var n := |ops| - 1;
      RunKeepsProgram(s, ops[..n]);
      NextKeeps(Run(s, ops[..n]), ops[n]);
    }
  }

  function Removals(order: seq<Address>): (ops: seq<Op>)
    ensures |ops| == |order| && AllInRange(ops, EZ8MEM_SIZE)
  {
    seq(|order|, i requires 0 <= i < |order| => RemoveBp(order[i]))
  }

  lemma {:induction false} RemovalsRun(s: State, order: seq<Address>)
    requires Planted(s)
    ensures var t := Run(s, Removals(order));
      && Planted(t) && Program(t) == Program(s)
      && forall b :: b in t.bps ==> b in s.bps && b.address !in order
    decreases |order|
  {
    hide Next, Planted, Logical;
    if order != [] {
      var n := |order| - 1;
      RemovalsRun(s, order[..n]);
      assert Removals(order)[..n] == Removals(order[..n]);
      var t := Run(s, Removals(order[..n]));
      RemoveKeeps(t, order[n]);
    }
  }

  lemma SomeMember(bps: seq<Breakpoint>)
    ensures bps != [] ==> exists b :: b in bps
  {
    if bps != [] {
      assert bps[0] in bps;
    }
  }

  /** Removing every breakpoint, in any order, leaves exactly the user's program in flash. */
  lemma RemoveAll(s: State, order: seq<Address>)
    requires Planted(s) && forall k :: 0 <= k < |s.bps| ==> s.bps[k].address in order
    ensures Run(s, Removals(order)) == State(Program(s), [])
  {
    RemovalsRun(s, order);
    var t := Run(s, Removals(order));
    SomeMember(t.bps);
  }

  // ----- The host's side: a copy of memory, trusted by checksum -----

  /** Chip and list, and the host's copy of memory. */
  datatype Host = Host(s: State, copy: Image)

  /** How much of memory the host goes by checksums for, and what it can vouch for: all of it
      when it does not. */
  function Reach(n: nat): nat {
    if n == 0 then EZ8MEM_SIZE else n
  }

  predicate Trusts(n: nat, h: Host)
    requires n <= EZ8MEM_SIZE
  {
    n != 0 && ImageCrc(h.s.flash, n) == ImageCrc(h.copy, n)
  }

  predicate InStep(n: nat, h: Host)
    requires n <= EZ8MEM_SIZE
  {
    h.copy[..n] == h.s.flash[..n]
  }

  /** The copy and the chip's memory differ although their checksums agree. */
  predicate Clash(n: nat, h: Host)
    requires n <= EZ8MEM_SIZE
  {
    Trusts(n, h) && !InStep(n, h)
  }

  /** What the host reads memory to be, and what it takes the pages of a write to hold. */
  function View(n: nat, h: Host): Image
    requires n <= EZ8MEM_SIZE
  {
    if Trusts(n, h) then h.copy else h.s.flash
  }

  function Assumed(n: nat, h: Host, a: nat, size: nat): Image
    requires n <= EZ8MEM_SIZE && a + size <= EZ8MEM_SIZE
  {
    var lo, hi := PageStart(a), PageEnd(a + size);
    if Trusts(n, h) then h.copy else Overlay(h.copy, lo, h.s.flash[lo..hi])
  }

  function Rewritten(n: nat, h: Host, a: nat, data: seq<Byte>): Host
    requires n <= EZ8MEM_SIZE && a + |data| <= EZ8MEM_SIZE
  {
    var base := Assumed(n, h, a, |data|);
    Host(h.s.(flash := AfterWrite(h.s.flash, base, a, data)), Overlay(base, a, data))
  }

  /** The effect of one operation as the host carries it out, colliding or not. A breakpoint
      stays in the list when the write that should remove it fails its checksum test. */
  function Act(n: nat, h: Host, op: Op): Host
    requires n <= EZ8MEM_SIZE && InRange(op, EZ8MEM_SIZE)
  {
    match op
    case SetBp(a) =>
      if a == 0 || IsSet(h.s.bps, a) then h
      else Host(State(h.s.flash[a := 0], h.s.bps + [Breakpoint(a, View(n, h)[a])]), h.copy[a := 0])
    case RemoveBp(a) =>
      var k := IndexOf(h.s.bps, a);
      if k == |h.s.bps| then h else
        var w := Rewritten(n, h, a, [h.s.bps[k].data]);
        if Trusts(n, h) && !Trusts(n, w) then w else w.(s := w.s.(bps := WithoutAt(h.s.bps, k)))
    case Write(a, data) => Rewritten(n, h, a, data)
    case Read(a, size) => h.(copy := if Trusts(n, h) then h.copy else Overlay(h.copy, a, h.s.flash[a..a + size]))
  }

  function Show(n: nat, h: Host, op: Op): seq<seq<Byte>>
    requires n <= EZ8MEM_SIZE && InRange(op, EZ8MEM_SIZE)
  {
    if op.Read? then [Logical(View(n, h), h.s.bps)[op.from..op.from + op.size]] else []
  }

  function Acts(n: nat, h: Host, ops: seq<Op>): Host
    requires n <= EZ8MEM_SIZE && AllInRange(ops, EZ8MEM_SIZE)
    decreases |ops|
  {
    if ops == [] then h else Act(n, Acts(n, h, ops[..|ops| - 1]), ops[|ops| - 1])
  }

  function Shown(n: nat, h: Host, ops: seq<Op>): seq<seq<Byte>>
    requires n <= EZ8MEM_SIZE && AllInRange(ops, EZ8MEM_SIZE)
    decreases |ops|
  {
    if ops == [] then [] else
      var before := ops[..|ops| - 1];
      Shown(n, h, before) + Show(n, Acts(n, h, before), ops[|ops| - 1])
  }

  /** No operation of the run starts from a clash. */
  predicate NoClash(n: nat, h: Host, ops: seq<Op>)
    requires n <= EZ8MEM_SIZE && AllInRange(ops, EZ8MEM_SIZE)
    decreases |ops|
  {
    ops == [] || (NoClash(n, h, ops[..|ops| - 1]) && !Clash(n, Acts(n, h, ops[..|ops| - 1])))
  }

  lemma RewriteClean(n: nat, h: Host, a: nat, data: seq<Byte>)
    requires n <= EZ8MEM_SIZE && n % EZ8MEM_PAGESIZE == 0 && a + |data| <= Reach(n) && !Clash(n, h)
    ensures a + |data| <= EZ8MEM_SIZE
    ensures var w := Rewritten(n, h, a, data);
      && w.s == State(Overlay(h.s.flash, a, data), h.s.bps)
      && (InStep(n, h) ==> InStep(n, w)) && (Trusts(n, h) ==> Trusts(n, w))
  {
    hide ImageCrc, Overlay, AfterWrite, PageStart, PageEnd, Agree;
    var lo, hi := PageStart(a), PageEnd(a + |data|);
    PageBounds(a, |data|, n);
    BaseAgrees(h.s.flash, h.copy, lo, hi, n);
    WriteAgrees(h.s.flash, Assumed(n, h, a, |data|), a, data, n);
    SyncedCrc(Rewritten(n, h, a, data).copy, Rewritten(n, h, a, data).s.flash, n);
  }

  /** Without a clash one operation does to the chip what the user is shown, and copy and chip
      do not part. */
  lemma ActClean(n: nat, h: Host, op: Op)
    requires n <= EZ8MEM_SIZE && n % EZ8MEM_PAGESIZE == 0 && InRange(op, Reach(n)) && !Clash(n, h)
    ensures InRange(op, EZ8MEM_SIZE)
    ensures Act(n, h, op).s == Next(h.s, op)
    ensures Show(n, h, op) == if op.Read? then [Program(h.s)[op.from..op.from + op.size]] else []
    ensures InStep(n, h) ==> InStep(n, Act(n, h, op))
  {
    hide ImageCrc, Overlay, AfterWrite, Logical, Assumed;
    match op
    case SetBp(a) =>
      SyncedByte(h.copy, h.s.flash, n, a);
      SyncedUpdate(h.copy, h.s.flash, a, n);
    case RemoveBp(a) =>
      var k := IndexOf(h.s.bps, a);
      if k < |h.s.bps| {
        RewriteClean(n, h, a, [h.s.bps[k].data]);
        OverlayByte(h.s.flash, a, [h.s.bps[k].data]);
      }
    case Write(a, data) =>
      RewriteClean(n, h, a, data);
    case Read(a, size) =>
      OverlaySynced(h.copy, h.s.flash, n, a, size);
      CacheSliceSynced(h.copy, h.s.flash, n, a, size);
      CacheSliceSynced(h.copy, h.copy, n, a, size);
      LogicalLocal(View(n, h), h.s.flash, h.s.bps, a, a + size);
  }

  /** A run without a clash goes as the user is shown it, also when the copy starts out of step. */
  lemma {:induction false} ActsClean(n: nat, h: Host, ops: seq<Op>)
    requires n <= EZ8MEM_SIZE && n % EZ8MEM_PAGESIZE == 0 && AllInRange(ops, Reach(n)) && NoClash(n, h, ops)
    ensures Acts(n, h, ops).s == Run(h.s, ops)
    ensures Planted(h.s) && AllAvoid(h.s, ops) ==> Shown(n, h, ops) == Reads(Program(h.s), ops)
    decreases |ops|
  {
    hide Act, Show, Clash, Next, Logical, Planted, Avoids;
    if ops != [] {
      var before := ops[..|ops| - 1];
      ActsClean(n, h, before);
      if Planted(h.s) && AllAvoid(h.s, ops) {
        RunKeepsProgram(h.s, before);
      }
      ActClean(n, Acts(n, h, before), ops[|ops| - 1]);
    }
  }

  /** With the copy in step at the start there never is a clash. */
  lemma {:induction false} InStepNoClash(n: nat, h: Host, ops: seq<Op>)
    requires n <= EZ8MEM_SIZE && n % EZ8MEM_PAGESIZE == 0 && AllInRange(ops, Reach(n)) && InStep(n, h)
    ensures NoClash(n, h, ops) && InStep(n, Acts(n, h, ops))
    decreases |ops|
  {
    hide Act;
    if ops != [] {
      var before := ops[..|ops| - 1];
      InStepNoClash(n, h, before);
      ActClean(n, Acts(n, h, before), ops[|ops| - 1]);
    }
  }

  /** A run that starts by reading all the memory there is can only clash at its start. */
  lemma {:induction false} ReadAllFirst(n: nat, h: Host, ops: seq<Op>)
    requires n <= EZ8MEM_SIZE && n % EZ8MEM_PAGESIZE == 0 && AllInRange(ops, Reach(n))
    requires !Clash(n, h) && ops != [] && ops[0] == Read(0, n)
    ensures NoClash(n, h, ops) && InStep(n, Acts(n, h, ops))
    decreases |ops|
  {
    hide Act, ImageCrc;
    var before, op := ops[..|ops| - 1], ops[|ops| - 1];
    if before == [] {
      ReadAll(n, h);
    } else {
      assert before[0] == ops[0];
      ReadAllFirst(n, h, before);
      ActClean(n, Acts(n, h, before), op);
    }
  }

  lemma ReadAll(n: nat, h: Host)
    requires n <= EZ8MEM_SIZE && !Clash(n, h)
    ensures InStep(n, Act(n, h, Read(0, n)))
  {
    hide ImageCrc;
    if !Trusts(n, h) {
      OverlaySlice(h.copy, 0, h.s.flash[0..n]);
    }
  }

  /** What a run shows up to its first clash is right, whatever comes after. */
  lemma {:induction false} ShownPrefix(n: nat, h: Host, ops: seq<Op>, m: nat)
    requires n <= EZ8MEM_SIZE && n % EZ8MEM_PAGESIZE == 0 && AllInRange(ops, Reach(n))
    requires m <= |ops| && Planted(h.s) && AllAvoid(h.s, ops) && NoClash(n, h, ops[..m])
    ensures Reads(Program(h.s), ops[..m]) <= Shown(n, h, ops)
    decreases |ops|
  {
    hide Act, Show, InRange, Planted, Avoids, Logical;
    if m == |ops| {
      assert ops[..m] == ops;
      ActsClean(n, h, ops);
    } else {
      var before := ops[..|ops| - 1];
      assert before[..m] == ops[..m];
      ShownPrefix(n, h, before, m);
    }
  }

  /** In a clash a read is right exactly when, off the breakpoints, copy and chip agree where
      it looks. */
  lemma ReadRight(n: nat, h: Host, a: nat, size: nat)
    requires n <= EZ8MEM_SIZE && a + size <= EZ8MEM_SIZE && Distinct(h.s.bps)
    ensures Show(n, h, Read(a, size)) == [Program(h.s)[a..a + size]] <==>
      (!Trusts(n, h) || forall i: Address :: a <= i < a + size && !IsSet(h.s.bps, i) ==> h.copy[i] == h.s.flash[i])
  {
    hide Logical, IsSet, ImageCrc;
    var p, q := Logical(View(n, h), h.s.bps), Program(h.s);
    forall i: Address | a <= i < a + size
      ensures p[i] == q[i] <==> (IsSet(h.s.bps, i) || View(n, h)[i] == h.s.flash[i])
    {
      LogicalAt(View(n, h), h.s.bps, i);
      LogicalAt(h.s.flash, h.s.bps, i);
    }
    SliceEqual(p, q, a, a + size);
  }

  lemma SliceEqual(p: Image, q: Image, lo: nat, hi: nat)
    requires lo <= hi <= EZ8MEM_SIZE
    ensures p[lo..hi] == q[lo..hi] <==> forall i: Address :: lo <= i < hi ==> p[i] == q[i]
  {
    if p[lo..hi] == q[lo..hi] {
      forall i: Address | lo <= i < hi
        ensures p[i] == q[i]
      {
        assert p[lo..hi][i - lo] == q[lo..hi][i - lo];
      }
    }
  }

  // ----- The debugger carries such runs out -----

  ghost function Vouched(d: Debugger): (n: nat)
    reads d`memcacheEnabled
    ensures n <= EZ8MEM_SIZE && n % EZ8MEM_PAGESIZE == 0 && Reach(n) == d.Limit()
  {
    if d.memcacheEnabled then d.Known() else 0
  }

  ghost function StateOf(d: Debugger): State
    reads d, d.dev
  {
    State(d.dev.chip.flash, d.breakpoints)
  }

  ghost function HostOf(d: Debugger): Host
    requires d.mainMem.Length == EZ8MEM_SIZE
    reads d, d.dev, d.mainMem
  {
    Host(StateOf(d), d.Mem())
  }

  /** The debugger's tests are those of the model. */
  lemma SameTests(d: Debugger)
    requires d.Coherent()
    ensures d.Trusted() <==> Trusts(Vouched(d), HostOf(d))
    ensures d.View() == View(Vouched(d), HostOf(d))
    ensures d.Collision() <==> Clash(Vouched(d), HostOf(d))
    ensures forall a: nat, size: nat :: a + size <= EZ8MEM_SIZE ==>
      d.Base(a, size) == Assumed(Vouched(d), HostOf(d), a, size)
  {
    hide ImageCrc, MemorySize, HasBit, Overlay;
  }

  /** Issue the operations, whatever the copy of memory holds: chip, list and copy end, and every
      read returns, as the host model says, collisions included. If the run as the model predicts
      it meets no clash, chip and list go as the run model says, and if its writes avoid the
      breakpoints the program is changed by them alone and every read is a slice of it. With the
      copy in step at the start it meets no clash. */
  method Replay(d: Debugger, ops: seq<Op>) returns (views: seq<seq<Byte>>)
    requires d.Coherent() && d.Ready() && AllInRange(ops, d.Limit())
    modifies d, d.mainMem, d.dev
    ensures d.Coherent() && d.Ready()
    ensures HostOf(d) == Acts(Vouched(d), old(HostOf(d)), ops) && views == Shown(Vouched(d), old(HostOf(d)), ops)
    ensures NoClash(Vouched(d), old(HostOf(d)), ops) ==> StateOf(d) == Run(old(StateOf(d)), ops)
    ensures NoClash(Vouched(d), old(HostOf(d)), ops) && Planted(old(StateOf(d))) && AllAvoid(old(StateOf(d)), ops) ==>
      && Program(StateOf(d)) == Written(old(Program(StateOf(d))), ops)
      && views == Reads(old(Program(StateOf(d))), ops)
    ensures old(d.Synced()) ==> NoClash(Vouched(d), old(HostOf(d)), ops) && d.Synced()
  {
    hide Act, Show, Next, Logical, Planted, Avoids, IndexOf, MemorySize, ImageCrc, HasBit, Assumed, View;
    views := [];
    ghost var n, h := Vouched(d), HostOf(d);
    assert ops[..0] == [];
    for i := 0 to |ops|
      invariant d.Coherent() && d.Ready() && d.memcacheEnabled == old(d.memcacheEnabled)
      invariant AllInRange(ops[..i], EZ8MEM_SIZE)
      invariant HostOf(d) == Acts(n, h, ops[..i]) && views == Shown(n, h, ops[..i])
      invariant old(d.Synced()) ==> d.Synced()
    {
      assert ops[..i + 1][..i] == ops[..i] && ops[..i + 1][i] == ops[i];
      var out := Issue(d, ops[i]);
      views := views + out;
    }
    assert ops[..|ops|] == ops;
    if Planted(h.s) && AllAvoid(h.s, ops) {
      RunKeepsProgram(h.s, ops);
    }
    if NoClash(n, h, ops) {
      ActsClean(n, h, ops);
    }
    if old(d.Synced()) {
      SyncedInStep(d.Known(), n, h);
      InStepNoClash(n, h, ops);
    }
  }

  lemma SyncedInStep(known: nat, n: nat, h: Host)
    requires n <= known <= EZ8MEM_SIZE && h.copy[..known] == h.s.flash[..known]
    ensures InStep(n, h)
  {
    assert h.copy[..n] == h.copy[..known][..n];
  }

  /** One operation; a rejected breakpoint request changes nothing. */
  method Issue(d: Debugger, op: Op) returns (out: seq<seq<Byte>>)
    requires d.Coherent() && d.Ready() && InRange(op, d.Limit())
    modifies d, d.mainMem, d.dev
    ensures d.Coherent() && d.Ready() && d.memcacheEnabled == old(d.memcacheEnabled)
    ensures HostOf(d) == Act(Vouched(d), old(HostOf(d)), op) && out == Show(Vouched(d), old(HostOf(d)), op)
    ensures !old(d.Collision()) ==>
      && StateOf(d) == Next(old(StateOf(d)), op)
      && out == if op.Read? then [Program(old(StateOf(d)))[op.from..op.from + op.size]] else []
    ensures old(d.Synced()) ==> d.Synced()
  {
    hide Logical, MemorySize, ImageCrc, HasBit, Overlay, AfterWrite, Next, Act, Show, Clash;
    ghost var n, h := Vouched(d), HostOf(d);
    SameTests(d);
    ShowsNothing(n, h, op);
    out := [];
    match op {
      case SetBp(a) =>
        IssueSet(d, a);
      case RemoveBp(a) =>
        IssueRemove(d, a);
      case Write(a, data) =>
        IssueWrite(d, a, data);
      case Read(a, size) =>
        var data := IssueRead(d, a, size);
        out := [data];
    }
    if !Clash(n, h) {
      ActClean(n, h, op);
    }
  }

  lemma ShowsNothing(n: nat, h: Host, op: Op)
    requires n <= EZ8MEM_SIZE && InRange(op, EZ8MEM_SIZE)
    ensures !op.Read? ==> Show(n, h, op) == []
  {}

  method IssueSet(d: Debugger, a: Address)
    requires d.Coherent() && d.Ready() && a < d.Limit()
    modifies d, d.mainMem, d.dev
    ensures d.Coherent() && d.Ready() && d.memcacheEnabled == old(d.memcacheEnabled)
    ensures HostOf(d) == Act(Vouched(d), old(HostOf(d)), SetBp(a))
    ensures old(d.Synced()) ==> d.Synced()
  {
    hide MemorySize, ImageCrc, HasBit, View, Trusts;
    SameTests(d);
    var _ := d.SetBreakpoint(a);
  }

  lemma SameTrust(n: nat, a: Host, b: Host)
    requires n <= EZ8MEM_SIZE && a.s.flash == b.s.flash && a.copy == b.copy
    ensures Trusts(n, a) == Trusts(n, b)
  {}

  method IssueRemove(d: Debugger, a: Address)
    requires d.Coherent() && d.Ready() && a < d.Limit()
    modifies d, d.mainMem, d.dev
    ensures d.Coherent() && d.Ready() && d.memcacheEnabled == old(d.memcacheEnabled)
    ensures HostOf(d) == Act(Vouched(d), old(HostOf(d)), RemoveBp(a))
    ensures old(d.Synced()) ==> d.Synced()
  {
    hide MemorySize, ImageCrc, HasBit, Overlay, AfterWrite, Assumed, Trusts, WithoutAt;
    SameTests(d);
    ghost var h := HostOf(d);
    var r := d.RemoveBreakpoint(a);
    SameTests(d);
    if IsSet(h.s.bps, a) {
      ghost var w := Rewritten(Vouched(d), h, a, [h.s.bps[IndexOf(h.s.bps, a)].data]);
      assert d.dev.chip.flash == w.s.flash && d.Mem() == w.copy;
      assert Trusts(Vouched(d), w) == Trusts(Vouched(d), HostOf(d)) by { SameTrust(Vouched(d), w, HostOf(d)); }
    }
  }

  method IssueWrite(d: Debugger, a: nat, data: seq<Byte>)
    requires d.Coherent() && d.Ready() && a + |data| <= d.Limit()
    modifies d, d.mainMem, d.dev
    ensures d.Coherent() && d.Ready() && d.memcacheEnabled == old(d.memcacheEnabled)
    ensures HostOf(d) == Act(Vouched(d), old(HostOf(d)), Write(a, data))
    ensures old(d.Synced()) ==> d.Synced()
  {
    hide MemorySize, ImageCrc, HasBit, Overlay, AfterWrite, Assumed, Trusts;
    SameTests(d);
    var _ := d.WrMem(a, data);
  }

  method IssueRead(d: Debugger, a: nat, size: nat) returns (data: seq<Byte>)
    requires d.Coherent() && d.Ready() && a + size <= d.Limit()
    modifies d, d.mainMem, d.dev
    ensures d.Coherent() && d.Ready() && d.memcacheEnabled == old(d.memcacheEnabled)
    ensures HostOf(d) == Act(Vouched(d), old(HostOf(d)), Read(a, size))
    ensures [data] == Show(Vouched(d), old(HostOf(d)), Read(a, size))
    ensures old(d.Synced()) ==> d.Synced()
  {
    hide MemorySize, ImageCrc, HasBit, Overlay, Logical, View, Trusts;
    SameTests(d);
    var r := d.ReadMem(a, size);
    data := r.value;
  }
}
