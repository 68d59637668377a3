/** The command transport of ez8ocd.cpp over the echoing serial link of ocd_serial.cpp, against
    a chip that decodes commands one byte at a time. */
module Transport {

  import opened Ez8

  const EZ8REG_BUFSIZ := 256
  const BUFSIZ := 8192

  const DBG_CMD_WR_REG: Byte := 0x08
  const DBG_CMD_RD_REG: Byte := 0x09
  const DBG_CMD_WR_MEM: Byte := 0x0a
  const DBG_CMD_RD_MEM: Byte := 0x0b
  const DBG_CMD_WR_EDATA: Byte := 0x0c
  const DBG_CMD_RD_EDATA: Byte := 0x0d

  // ----- The chip's end -----

  datatype Space = Reg | Mem | Edata

  function SpaceSize(space: Space): nat {
    if space.Reg? then EZ8REG_SIZE else EZ8MEM_SIZE
  }

  /** The chip's three address spaces; a cell never written holds 0. */
  type Target = map<(Space, nat), Byte>

  function At(t: Target, space: Space, addr: nat): Byte {
    if (space, addr) in t then t[(space, addr)] else 0
  }

  /** `n` bytes from `addr` on; addresses wrap. */
  function Load(t: Target, space: Space, addr: nat, n: nat): (r: seq<Byte>)
    ensures |r| == n
  {
    seq(n, i requires 0 <= i < n => At(t, space, (addr + i) % SpaceSize(space)))
  }

  function Put(t: Target, space: Space, addr: nat, b: Byte): Target {
    t[(space, addr % SpaceSize(space)) := b]
  }

  function Store(t: Target, space: Space, addr: nat, data: seq<Byte>): Target
    decreases |data|
  {
    if data == [] then t else Store(Put(t, space, addr, data[0]), space, addr + 1, data[1..])
  }

  /** Between commands, inside a command's address and length, or inside its data. */
  datatype Decoder = Idle | Header(cmd: Byte, args: seq<Byte>) | Storing(space: Space, addr: nat, left: nat)

  datatype Node = Node(target: Target, dec: Decoder)

  predicate IsCommand(b: Byte) {
    b in {DBG_CMD_WR_REG, DBG_CMD_RD_REG, DBG_CMD_WR_MEM, DBG_CMD_RD_MEM, DBG_CMD_WR_EDATA, DBG_CMD_RD_EDATA}
  }

  function SpaceOf(cmd: Byte): Space {
    if cmd == DBG_CMD_WR_REG || cmd == DBG_CMD_RD_REG then Reg
    else if cmd == DBG_CMD_WR_MEM || cmd == DBG_CMD_RD_MEM then Mem
    else Edata
  }

  predicate IsRead(cmd: Byte) {
    cmd == DBG_CMD_RD_REG || cmd == DBG_CMD_RD_MEM || cmd == DBG_CMD_RD_EDATA
  }

  function HeaderSize(space: Space): nat {
    if space.Reg? then 3 else 4
  }

  /** Length zero stands for the largest transfer. */
  function LengthOf(space: Space, args: seq<Byte>): (n: nat)
    requires |args| == HeaderSize(space)
    ensures n > 0
  {
    if space.Reg? then (if NatOf(args[2]) == 0 then 256 else NatOf(args[2]))
    else var n := NatOf(args[2]) * 256 + NatOf(args[3]); if n == 0 then 0x10000 else n
  }

  /** One byte received: the new state and what the chip answers. */
  function Accept(node: Node, b: Byte): (Node, seq<Byte>) {
    match node.dec
    case Idle => (if IsCommand(b) then node.(dec := Header(b, [])) else node, [])
    case Header(cmd, args) =>
      var space, got := SpaceOf(cmd), args + [b];
      if |got| != HeaderSize(space) then (node.(dec := Header(cmd, got)), [])
      else
        var addr, n := NatOf(got[0]) * 256 + NatOf(got[1]), LengthOf(space, got);
        if IsRead(cmd) then (node.(dec := Idle), Load(node.target, space, addr, n))
        else (node.(dec := Storing(space, addr, n)), [])
    case Storing(space, addr, left) =>
      (Node(Put(node.target, space, addr, b), if left <= 1 then Idle else Storing(space, addr + 1, left - 1)), [])
  }

  /** A stream of bytes received: the new state, and all answers in order. */
  function AcceptAll(node: Node, s: seq<Byte>): (Node, seq<Byte>)
    decreases |s|
  {
    if s == [] then (node, []) else
      var (next, reply) := Accept(node, s[0]);
      var (last, replies) := AcceptAll(next, s[1..]);
      (last, reply + replies)
  }

  /** What the host's receiver sees: transmit and receive share one wire, so every byte sent
      comes back, with answers in between. */
  function Arrivals(node: Node, s: seq<Byte>): seq<Byte>
    decreases |s|
  {
    if s == [] then [] else
      var (next, reply) := Accept(node, s[0]);
      [s[0]] + reply + Arrivals(next, s[1..])
  }

  lemma {:induction false} AcceptConcat(node: Node, a: seq<Byte>, b: seq<Byte>)
    ensures var (mid, replies) := AcceptAll(node, a);
            AcceptAll(node, a + b) == (AcceptAll(mid, b).0, replies + AcceptAll(mid, b).1)
    decreases |a|
  {
    hide Accept;
    if a == [] {
      assert a + b == b;
      assert [] + AcceptAll(node, b).1 == AcceptAll(node, b).1;
    } else {
      var (next, reply) := Accept(node, a[0]);
      assert (a + b)[1..] == a[1..] + b;
      AcceptConcat(next, a[1..], b);
      var (mid, replies) := AcceptAll(next, a[1..]);
      assert reply + (replies + AcceptAll(mid, b).1) == (reply + replies) + AcceptAll(mid, b).1;
    }
  }

  lemma {:induction false} ArrivalsConcat(node: Node, a: seq<Byte>, b: seq<Byte>)
    ensures Arrivals(node, a + b) == Arrivals(node, a) + Arrivals(AcceptAll(node, a).0, b)
    decreases |a|
  {
    hide Accept;
    if a == [] {
      assert a + b == b;
    } else {
      var (next, reply) := Accept(node, a[0]);
      assert (a + b)[1..] == a[1..] + b;
      ArrivalsConcat(next, a[1..], b);
    }
  }

  lemma AcceptOne(node: Node, b: Byte)
    ensures AcceptAll(node, [b]) == Accept(node, b)
    ensures Arrivals(node, [b]) == [b] + Accept(node, b).1
  {
    hide Accept;
    assert [b][1..] == [];
    assert AcceptAll(Accept(node, b).0, []).1 == [];
    assert Accept(node, b).1 + [] == Accept(node, b).1;
    assert Arrivals(Accept(node, b).0, []) == [];
  }

  /** The chip stays silent until the last byte of `s`. */
  predicate SilentUntilLast(node: Node, s: seq<Byte>) {
    s != [] ==> AcceptAll(node, s[..|s| - 1]).1 == []
  }

  lemma {:induction false} SilentArrivals(node: Node, s: seq<Byte>)
    ensures AcceptAll(node, s).1 == [] ==> Arrivals(node, s) == s
    decreases |s|
  {
    hide Accept;
    if s != [] {
      SilentArrivals(Accept(node, s[0]).0, s[1..]);
    }
  }

  /** Then the echo comes back intact, with the answer after it. */
  lemma CleanEcho(node: Node, s: seq<Byte>)
    requires SilentUntilLast(node, s)
    ensures Arrivals(node, s) == s + AcceptAll(node, s).1
  {
    hide Accept;
    if s != [] {
      var n := |s| - 1;
      assert s == s[..n] + [s[n]];
      AcceptConcat(node, s[..n], [s[n]]);
      ArrivalsConcat(node, s[..n], [s[n]]);
      SilentArrivals(node, s[..n]);
      AcceptOne(AcceptAll(node, s[..n]).0, s[n]);
      assert s[..n] + ([s[n]] + AcceptAll(node, s).1) == s + AcceptAll(node, s).1;
    }
  }

  // ----- Commands, unsplit -----

  function Address16(address: nat): seq<Byte>
    requires address < 0x10000
  {
    [ByteOf(address / 256), ByteOf(address % 256)]
  }

  /** A whole command header as ez8ocd builds it. */
  function CommandBytes(cmd: Byte, address: nat, len: nat): (s: seq<Byte>)
    requires address < 0x10000 && len <= 0x10000 && (SpaceOf(cmd).Reg? ==> len <= 256)
    ensures |s| == 1 + HeaderSize(SpaceOf(cmd))
  {
    [cmd] + Address16(address) +
    (if SpaceOf(cmd).Reg? then [ByteOf(len % 256)] else [ByteOf(len / 256 % 256), ByteOf(len % 256)])
  }

  lemma HeaderDecodes(node: Node, cmd: Byte, address: nat, len: nat)
    requires node.dec == Idle && IsCommand(cmd)
    requires address < 0x10000 && 0 < len <= 0x10000 && (SpaceOf(cmd).Reg? ==> len <= 256)
    ensures var s := CommandBytes(cmd, address, len);
      && SilentUntilLast(node, s)
      && AcceptAll(node, s) ==
         if IsRead(cmd) then (node, Load(node.target, SpaceOf(cmd), address, len))
         else (node.(dec := Storing(SpaceOf(cmd), address, len)), [])
  {
    hide ByteOf, NatOf, SpaceOf, IsRead, IsCommand, Load, CommandBytes;
    var s := CommandBytes(cmd, address, len);
    var space := SpaceOf(cmd);
    var n := HeaderSize(space);
    CommandFields(cmd, address, len);
    HeaderPrefix(node, s, n);
    assert s == s[..n] + [s[n]];
    AcceptConcat(node, s[..n], [s[n]]);
    var head := node.(dec := Header(cmd, s[1..n]));
    AcceptOne(head, s[n]);
    assert s[1..n] + [s[n]] == s[1..];
    assert s[1..][0] == s[1] && s[1..][1] == s[2];
    assert [] + Accept(head, s[n]).1 == Accept(head, s[n]).1;
    assert head.(dec := Idle) == node;
  }

  /** The fields survive encoding; length zero, which only an mtu of 1 would produce, asks for
      the largest transfer instead of none. */
  lemma CommandFields(cmd: Byte, address: nat, len: nat)
    requires address < 0x10000 && len <= 0x10000 && (SpaceOf(cmd).Reg? ==> len <= 256)
    ensures var s := CommandBytes(cmd, address, len);
      && s[0] == cmd && NatOf(s[1]) * 256 + NatOf(s[2]) == address
      && LengthOf(SpaceOf(cmd), s[1..]) ==
         if len > 0 then len else if SpaceOf(cmd).Reg? then 256 else 0x10000
  {
    hide ByteOf, NatOf, SpaceOf;
    NatOfByteOf(address / 256);
    NatOfByteOf(address % 256);
    NatOfByteOf(len / 256 % 256);
    NatOfByteOf(len % 256);
  }

  /** Three headers, byte by byte. */
  lemma CommandSpelled()
    ensures CommandBytes(0x0b, 0x1234, 0x5678) == [0x0b, 0x12, 0x34, 0x56, 0x78]
    ensures CommandBytes(0x0a, 0x8000, 0x10000) == [0x0a, 0x80, 0x00, 0x00, 0x00]
    ensures CommandBytes(0x08, 0x0ff8, 256) == [0x08, 0x0f, 0xf8, 0x00]
  {
    hide ByteOf;
    BytesSpelled();
  }

  lemma BytesSpelled()
    ensures ByteOf(0x00) == 0x00 && ByteOf(0x0f) == 0x0f && ByteOf(0x12) == 0x12 && ByteOf(0x34) == 0x34
    ensures ByteOf(0x56) == 0x56 && ByteOf(0x78) == 0x78 && ByteOf(0x80) == 0x80 && ByteOf(0xf8) == 0xf8
  {}

  /** While the header is incomplete the decoder only collects. */
  lemma {:induction false} HeaderPrefix(node: Node, s: seq<Byte>, n: nat)
    requires node.dec == Idle && 1 <= n < |s| && IsCommand(s[0]) && n <= HeaderSize(SpaceOf(s[0]))
    ensures AcceptAll(node, s[..n]) == (node.(dec := Header(s[0], s[1..n])), [])
    decreases n
  {
    hide SpaceOf, IsRead, IsCommand, Load;
    if n == 1 {
      AcceptOne(node, s[0]);
      assert s[..1] == [s[0]] && s[1..1] == [];
    } else {
      HeaderPrefix(node, s, n - 1);
      assert s[..n] == s[..n - 1] + [s[n - 1]];
      AcceptConcat(node, s[..n - 1], [s[n - 1]]);
      AcceptOne(node.(dec := Header(s[0], s[1..n - 1])), s[n - 1]);
      assert s[1..n - 1] + [s[n - 1]] == s[1..n];
    }
  }

  lemma {:induction false} StoringDecodes(node: Node, space: Space, addr: nat, data: seq<Byte>, left: nat)
    requires node.dec == Storing(space, addr, left) && 0 < |data| <= left
    ensures AcceptAll(node, data) ==
            (Node(Store(node.target, space, addr, data),
                  if |data| == left then Idle else Storing(space, addr + |data|, left - |data|)), [])
    decreases |data|
  {
    hide Put;
    var next := Accept(node, data[0]).0;
    if |data| > 1 {
      StoringDecodes(next, space, addr + 1, data[1..], left - 1);
    } else {
      assert data[1..] == [];
    }
  }

  /** A whole write transfer in one stream. */
  lemma UnsplitWrite(node: Node, cmd: Byte, address: nat, data: seq<Byte>)
    requires node.dec == Idle && IsCommand(cmd) && !IsRead(cmd)
    requires address < 0x10000 && 0 < |data| <= 0x10000 && (SpaceOf(cmd).Reg? ==> |data| <= 256)
    ensures AcceptAll(node, CommandBytes(cmd, address, |data|) + data) ==
            (Node(Store(node.target, SpaceOf(cmd), address, data), Idle), [])
  {
    hide CommandBytes, IsCommand, IsRead, SpaceOf, Store;
    HeaderDecodes(node, cmd, address, |data|);
    var mid := node.(dec := Storing(SpaceOf(cmd), address, |data|));
    StoringDecodes(mid, SpaceOf(cmd), address, data, |data|);
    AcceptConcat(node, CommandBytes(cmd, address, |data|), data);
  }

  lemma LoadConcat(t: Target, space: Space, addr: nat, n: nat, m: nat)
    ensures Load(t, space, addr, n) + Load(t, space, addr + n, m) == Load(t, space, addr, n + m)
  {}

  lemma {:induction false} StoreConcat(t: Target, space: Space, addr: nat, a: seq<Byte>, b: seq<Byte>)
    ensures Store(Store(t, space, addr, a), space, addr + |a|, b) == Store(t, space, addr, a + b)
    decreases |a|
  {
    hide Put;
    if a == [] {
      assert a + b == b;
    } else {
      assert (a + b)[1..] == a[1..] + b;
      StoreConcat(Put(t, space, addr, a[0]), space, addr + 1, a[1..], b);
    }
  }

  /** What was stored is what is loaded back, and nothing else changed. */
  lemma {:induction false} LoadStored(t: Target, space: Space, addr: nat, data: seq<Byte>, s: Space, a: nat)
    requires addr + |data| <= SpaceSize(space) && a < SpaceSize(s)
    ensures At(Store(t, space, addr, data), s, a) ==
            if s == space && addr <= a < addr + |data| then data[a - addr] else At(t, s, a)
    decreases |data|
  {
    if data != [] {
      LoadStored(Put(t, space, addr, data[0]), space, addr + 1, data[1..], s, a);
    }
  }

  /** Any piece of a stream the chip answers only at the end is itself such a stream, and all
      but the last piece are answered with silence. */
  lemma SilentPiece(node: Node, s: seq<Byte>, i: nat, j: nat)
    requires SilentUntilLast(node, s) && i < j <= |s|
    ensures AcceptAll(node, s[..i]).1 == []
    ensures var mid := AcceptAll(node, s[..i]).0;
      && SilentUntilLast(mid, s[i..j])
      && AcceptAll(mid, s[i..j]).0 == AcceptAll(node, s[..j]).0
      && AcceptAll(mid, s[i..j]).1 == AcceptAll(node, s[..j]).1
      && (j < |s| ==> AcceptAll(mid, s[i..j]).1 == [])
  {
    hide AcceptAll;
    var n := |s| - 1;
    var mid := AcceptAll(node, s[..i]).0;
    assert s[..n] == s[..i] + s[i..n];
    AcceptConcat(node, s[..i], s[i..n]);
    assert s[..j] == s[..i] + s[i..j];
    AcceptConcat(node, s[..i], s[i..j]);
    assert s[i..n] == s[i..j - 1] + s[j - 1..n];
    AcceptConcat(mid, s[i..j - 1], s[j - 1..n]);
    assert s[i..j][..j - i - 1] == s[i..j - 1];
    if j < |s| {
      assert s[i..n] == s[i..j] + s[j..n];
      AcceptConcat(mid, s[i..j], s[j..n]);
    }
  }

  // ----- The wire -----

  function Max(a: nat, b: nat): nat {
    if a < b then b else a
  }

  /** The one wire between host and chip. `queue` is what the receiver holds unread, `peak` the
      most it ever held. */
  class Line {
    var node: Node
    var queue: seq<Byte>
    var peak: nat

    constructor (target: Target)
      ensures node == Node(target, Idle) && queue == [] && peak == 0
    {
      node, queue, peak := Node(target, Idle), [], 0;
    }

    method Transmit(packet: seq<Byte>)
      modifies this
      ensures node == AcceptAll(old(node), packet).0
      ensures queue == old(queue) + Arrivals(old(node), packet)
      ensures peak == Max(old(peak), |queue|)
    {
      queue := queue + Arrivals(node, packet);
      node := AcceptAll(node, packet).0;
      peak := Max(peak, |queue|);
    }

    /** At most `n` bytes; fewer when no more are there. */
    method Receive(n: nat) returns (data: seq<Byte>)
      modifies `queue
      ensures |data| == (if n < |old(queue)| then n else |old(queue)|) && old(queue) == data + queue
    {
      var k := if n < |queue| then n else |queue|;
      data, queue := queue[..k], queue[k..];
    }
  }

  // ----- The host's end -----

  class Ez8ocd {
    const line: Line
    var mtu: nat
    var up: bool

    constructor (line: Line, mtu: nat)
      ensures this.line == line && this.mtu == mtu && up
    {
      this.line, this.mtu, up := line, mtu, true;
    }

    /** Nothing unread, and the chip between commands. */
    ghost predicate Rested()
      reads this, line
    {
      up && line.queue == [] && line.node.dec == Idle
    }

    /** ocd_serial::write: send a packet, then drain and check its echo. */
    method LinkWrite(buff: seq<Byte>) returns (r: Result<()>)
      requires buff != []
      modifies `up, line
      ensures r.Ok? <==> old(up) && buff <= old(line.queue) + Arrivals(old(line.node), buff)
      ensures r.Ok? ==> up && line.queue == (old(line.queue) + Arrivals(old(line.node), buff))[|buff|..]
      ensures r.Fail? ==> !up
      ensures old(up && line.queue == []) && SilentUntilLast(old(line.node), buff) ==>
        && r.Ok? && up && line.node == AcceptAll(old(line.node), buff).0
        && line.queue == AcceptAll(old(line.node), buff).1
        && line.peak == Max(old(line.peak), |buff| + |line.queue|)
    {
      hide AcceptAll, Arrivals;
      if !up {
        return Fail(LinkFailed);
      }
      if line.queue == [] && SilentUntilLast(line.node, buff) {
        CleanEcho(line.node, buff);
      }
      line.Transmit(buff);
      r := Drain(buff);
    }

    /** Read back as many bytes as were sent and compare them. */
    method Drain(buff: seq<Byte>) returns (r: Result<()>)
      requires up && buff != []
      modifies `up, line`queue
      ensures r.Ok? <==> buff <= old(line.queue)
      ensures r.Ok? ==> up && line.queue == old(line.queue)[|buff|..]
      ensures r.Fail? ==> !up
    {
      ghost var arrived := line.queue;
      var i := 0;
      while true
        invariant 0 <= i < |buff| && up
        invariant i <= |arrived| && line.queue == arrived[i..] && buff[..i] == arrived[..i]
        decreases |buff| - i
      {
        var size := if |buff| - i > BUFSIZ then BUFSIZ else |buff| - i;
        var verify := line.Receive(size);
        EchoGrows(buff, arrived, i, size, verify, line.queue);
        if |verify| < size {
          up := false;
          return Fail(LinkFailed);
        }
        if verify != buff[i..i + size] {
          up := false;
          return Fail(LinkFailed);
        }
        i := i + size;
        if i >= |buff| {
          break;
        }
      }
      assert buff[..|buff|] == buff;
      return Ok(());
    }

    /** ez8ocd::write: cut a message into packets of at most mtu bytes. */
    method Write(buff: seq<Byte>) returns (r: Result<()>)
      requires buff != []
      modifies `up, line
      ensures r.Fail? <==> !up
      ensures old(up && line.queue == []) && SilentUntilLast(old(line.node), buff) ==>
        && r.Ok? && up && line.node == AcceptAll(old(line.node), buff).0
        && line.queue == AcceptAll(old(line.node), buff).1
        && (mtu == 0 || |buff| <= mtu ==> line.peak == Max(old(line.peak), |buff| + |line.queue|))
        && (mtu > 0 && line.queue == [] ==> line.peak <= Max(old(line.peak), mtu))
    {
      hide AcceptAll, Arrivals, SilentUntilLast;
      ghost var node := line.node;
      ghost var clean := up && line.queue == [] && SilentUntilLast(line.node, buff);
      AcceptNone(node);
      assert buff[..0] == [];
      var i := 0;
      while i < |buff|
        invariant 0 <= i <= |buff| && (i > 0 && i < |buff| ==> mtu > 0 && |buff| > mtu)
        invariant i > 0 ==> up
        invariant clean ==> up && line.node == AcceptAll(node, buff[..i]).0
        invariant clean ==> line.queue == AcceptAll(node, buff[..i]).1 && (i < |buff| ==> line.queue == [])
        invariant clean && mtu > 0 && (i < |buff| || line.queue == []) ==> line.peak <= Max(old(line.peak), mtu)
        invariant clean && i == |buff| && (mtu == 0 || |buff| <= mtu) ==>
          line.peak == Max(old(line.peak), |buff| + |line.queue|)
        invariant clean && i == 0 ==> line.peak == old(line.peak)
        decreases |buff| - i
      {
        var len := if mtu > 0 && mtu < |buff| - i then mtu else |buff| - i;
        if clean {
          SilentPiece(node, buff, i, i + len);
        }
        var _ :- LinkWrite(buff[i..i + len]);
        i := i + len;
      }
      assert buff[..|buff|] == buff;
      return Ok(());
    }

    /** ez8ocd::read through ocd_serial::read: a short read takes the link down. */
    method Read(n: nat) returns (r: Result<seq<Byte>>)
      requires n > 0
      modifies `up, line`queue
      ensures r.Ok? <==> old(up) && |old(line.queue)| >= n
      ensures r.Ok? ==> r.value == old(line.queue)[..n] && line.queue == old(line.queue)[n..] && up
      ensures r.Fail? ==> !up
      ensures old(up) && |old(line.queue)| == n ==> r == Ok(old(line.queue)) && line.queue == [] && up
    {
      if !up {
        return Fail(LinkFailed);
      }
      var data := line.Receive(n);
      if |data| < n {
        up := false;
        return Fail(LinkFailed);
      }
      assert line.queue == [] ==> data == data + line.queue;
      return Ok(data);
    }

    /** The loop of rd_mem, rd_regs and rd_data: pieces that fit, with their answers, in the mtu. */
    method ReadSpace(cmd: Byte, address: nat, size: nat) returns (r: Result<seq<Byte>>)
      requires IsCommand(cmd) && IsRead(cmd) && address + size <= SpaceSize(SpaceOf(cmd)) && mtu != 1
      modifies `up, line
      ensures (r.Ok? ==> |r.value| == size) && (r.Fail? ==> !up)
      ensures old(Rested()) ==>
        && r == Ok(Load(old(line.node).target, SpaceOf(cmd), address, size))
        && Rested() && line.node == old(line.node)
        && (mtu > 0 ==> line.peak <= Max(old(line.peak), mtu))
    {
      hide AcceptAll, SilentUntilLast, CommandBytes, IsCommand, IsRead, SpaceOf, Load;
      ghost var node := line.node;
      ghost var rested := Rested();
      var data := [];
      LoadNone(node.target, SpaceOf(cmd), address);
      while |data| < size
        invariant |data| <= size
        invariant rested ==> Rested() && line.node == node
        invariant rested ==> data == Load(node.target, SpaceOf(cmd), address, |data|)
        invariant rested && mtu > 0 ==> line.peak <= Max(old(line.peak), mtu)
        decreases size - |data|
      {
        var len := size - |data|;
        if SpaceOf(cmd).Reg? && len > EZ8REG_BUFSIZ {
          len := EZ8REG_BUFSIZ;
        }
        if mtu > 0 && len > mtu - 1 {
          len := mtu - 1;
        }
        var piece :- ReadPiece(cmd, address + |data|, len);
        LoadConcat(node.target, SpaceOf(cmd), address, |data|, len);
        data := data + piece;
      }
      return Ok(data);
    }

    /** One read command. If command and answer together exceed the mtu, the last command byte,
        which triggers the answer, goes in a packet of its own. */
    method ReadPiece(cmd: Byte, address: nat, len: nat) returns (r: Result<seq<Byte>>)
      requires IsCommand(cmd) && IsRead(cmd) && address < 0x10000
      requires 0 < len <= 0x10000 && (SpaceOf(cmd).Reg? ==> len <= 256) && (mtu > 0 ==> len < mtu)
      modifies `up, line
      ensures (r.Ok? ==> |r.value| == len) && (r.Fail? <==> !up)
      ensures old(Rested()) ==>
        && r == Ok(Load(old(line.node).target, SpaceOf(cmd), address, len))
        && Rested() && line.node == old(line.node)
        && (mtu > 0 ==> line.peak <= Max(old(line.peak), mtu))
    {
      hide AcceptAll, SilentUntilLast, CommandBytes, IsCommand, IsRead, SpaceOf, Load;
      var command := CommandBytes(cmd, address, len);
      var n := |command| - 1;
      if Rested() {
        HeaderDecodes(line.node, cmd, address, len);
        SilentPiece(line.node, command, 0, n);
        SilentPiece(line.node, command, n, n + 1);
        AcceptNone(line.node);
        assert command[..0] == [] && command[0..n] == command[..n] && command[n..n + 1] == command[n..];
        assert command[..n + 1] == command;
      }
      if mtu > 0 && len + n + 1 > mtu {
        var _ :- Write(command[..n]);
        var _ :- Write(command[n..]);
      } else {
        var _ :- Write(command);
      }
      r := Read(len);
    }

    /** A write command and its data (wr_mem, wr_data, and each piece of wr_regs). */
    method WriteSpace(cmd: Byte, address: nat, data: seq<Byte>) returns (r: Result<()>)
      requires IsCommand(cmd) && !IsRead(cmd) && address < 0x10000
      requires 0 < |data| <= 0x10000 && (SpaceOf(cmd).Reg? ==> |data| <= 256)
      modifies `up, line
      ensures r.Fail? <==> !up
      ensures old(Rested()) ==>
        && r.Ok? && Rested()
        && line.node.target == Store(old(line.node).target, SpaceOf(cmd), address, data)
        && (mtu > 0 ==> line.peak <= Max(old(line.peak), mtu))
    {
      hide AcceptAll, CommandBytes, IsCommand, IsRead, SpaceOf, Store;
      var command := CommandBytes(cmd, address, |data|);
      if Rested() {
        HeaderDecodes(line.node, cmd, address, |data|);
        var mid := line.node.(dec := Storing(SpaceOf(cmd), address, |data|));
        StoringDecodes(mid, SpaceOf(cmd), address, data, |data|);
        StoringSilent(mid, SpaceOf(cmd), address, data, |data|);
      }
      var _ :- Write(command);
      r := Write(data);
    }

    method RdMem(address: nat, size: nat) returns (r: Result<seq<Byte>>)
      requires address + size <= EZ8MEM_SIZE && mtu != 1
      modifies `up, line
      ensures old(Rested()) ==>
        && r == Ok(Load(old(line.node).target, Mem, address, size)) && Rested() && line.node == old(line.node)
        && (mtu > 0 ==> line.peak <= Max(old(line.peak), mtu))
    {
      r := ReadSpace(DBG_CMD_RD_MEM, address, size);
    }

    method RdRegs(address: nat, size: nat) returns (r: Result<seq<Byte>>)
      requires address + size <= EZ8REG_SIZE && size != 0 && mtu != 1
      modifies `up, line
      ensures old(Rested()) ==>
        && r == Ok(Load(old(line.node).target, Reg, address, size)) && Rested() && line.node == old(line.node)
        && (mtu > 0 ==> line.peak <= Max(old(line.peak), mtu))
    {
      r := ReadSpace(DBG_CMD_RD_REG, address, size);
    }

    method RdData(address: nat, size: nat) returns (r: Result<seq<Byte>>)
      requires address + size <= EZ8MEM_SIZE && mtu != 1
      modifies `up, line
      ensures old(Rested()) ==>
        && r == Ok(Load(old(line.node).target, Edata, address, size)) && Rested() && line.node == old(line.node)
        && (mtu > 0 ==> line.peak <= Max(old(line.peak), mtu))
    {
      r := ReadSpace(DBG_CMD_RD_EDATA, address, size);
    }

    method WrMem(address: nat, data: seq<Byte>) returns (r: Result<()>)
      requires address + |data| <= EZ8MEM_SIZE
      modifies `up, line
      ensures old(Rested()) ==>
        && r.Ok? && Rested() && line.node.target == Store(old(line.node).target, Mem, address, data)
        && (mtu > 0 ==> line.peak <= Max(old(line.peak), mtu))
    {
      if |data| > 0 {
        r := WriteSpace(DBG_CMD_WR_MEM, address, data);
      } else {
        r := Ok(());
      }
    }

    method WrData(address: nat, data: seq<Byte>) returns (r: Result<()>)
      requires address + |data| <= EZ8MEM_SIZE
      modifies `up, line
      ensures old(Rested()) ==>
        && r.Ok? && Rested() && line.node.target == Store(old(line.node).target, Edata, address, data)
        && (mtu > 0 ==> line.peak <= Max(old(line.peak), mtu))
    {
      if |data| > 0 {
        r := WriteSpace(DBG_CMD_WR_EDATA, address, data);
      } else {
        r := Ok(());
      }
    }

    method WrRegs(address: nat, data: seq<Byte>) returns (r: Result<()>)
      requires address + |data| <= EZ8REG_SIZE && data != []
      modifies `up, line
      ensures old(Rested()) ==>
        && r.Ok? && Rested() && line.node.target == Store(old(line.node).target, Reg, address, data)
        && (mtu > 0 ==> line.peak <= Max(old(line.peak), mtu))
    {
      hide Store;
      ghost var target := line.node.target;
      ghost var rested := Rested();
      StoreNone(target, Reg, address);
      assert data[..0] == [];
      var i := 0;
      while i < |data|
        invariant 0 <= i <= |data|
        invariant rested ==> Rested() && line.node.target == Store(target, Reg, address, data[..i])
        invariant rested && mtu > 0 ==> line.peak <= Max(old(line.peak), mtu)
        decreases |data| - i
      {
        var len := if |data| - i > EZ8REG_BUFSIZ then EZ8REG_BUFSIZ else |data| - i;
        StoreConcat(target, Reg, address, data[..i], data[i..i + len]);
        assert data[..i] + data[i..i + len] == data[..i + len];
        var _ :- WriteSpace(DBG_CMD_WR_REG, address + i, data[i..i + len]);
        i := i + len;
      }
      assert data[..|data|] == data;
      return Ok(());
    }
  }

  /** Another piece of the echo: short, wrong, or as sent. */
  lemma EchoGrows(buff: seq<Byte>, arrived: seq<Byte>, i: nat, size: nat, piece: seq<Byte>, rest: seq<Byte>)
    requires i <= |arrived| && i + size <= |buff| && buff[..i] == arrived[..i]
    requires arrived[i..] == piece + rest && |piece| <= size && (|piece| < size ==> rest == [])
    ensures |piece| < size || piece != buff[i..i + size] ==> !(buff <= arrived)
    ensures piece == buff[i..i + size] ==>
      i + size <= |arrived| && rest == arrived[i + size..] && buff[..i + size] == arrived[..i + size]
  {
    if |piece| < size {
      assert |arrived| < |buff|;
    } else {
      assert piece == arrived[i..][..size] == arrived[i..i + size];
      if piece == buff[i..i + size] {
        assert buff[..i + size] == buff[..i] + piece && arrived[..i + size] == arrived[..i] + piece;
        assert rest == arrived[i..][size..];
      }
    }
  }

  lemma AcceptNone(node: Node)
    ensures AcceptAll(node, []) == (node, [])
  {}

  lemma LoadNone(t: Target, space: Space, addr: nat)
    ensures Load(t, space, addr, 0) == []
  {}

  lemma StoreNone(t: Target, space: Space, addr: nat)
    ensures Store(t, space, addr, []) == t
  {}

  lemma StoringSilent(node: Node, space: Space, addr: nat, data: seq<Byte>, left: nat)
    requires node.dec == Storing(space, addr, left) && 0 < |data| <= left
    ensures SilentUntilLast(node, data)
  {
    hide AcceptAll;
    var n := |data| - 1;
    if n > 0 {
      StoringDecodes(node, space, addr, data[..n], left);
    } else {
      AcceptNone(node);
      assert data[..0] == [];
    }
  }
}
