/** The serial receiver of serialport.cpp on a tty that marks line errors inside the data
    (PARMRK, section 11.2.2 of POSIX.1-2017 Base Definitions). */
module Serial {

  import opened Ez8

  /** What the line delivered: bytes, and bytes lost to a break (mark 0) or a framing error. */
  datatype Item = Data(b: Byte) | LineError(mark: Byte)

  /** How the tty driver hands these over. */
  function EscapeOne(item: Item): seq<Byte> {
    match item
    case Data(b) => if b == 0xff then [0xff, 0xff] else [b]
    case LineError(mark) => [0xff, 0x00, mark]
  }

  function Escape(items: seq<Item>): seq<Byte>
    decreases |items|
  {
    if items == [] then [] else EscapeOne(items[0]) + Escape(items[1..])
  }

  /** The number of items before the first error. */
  function Clean(items: seq<Item>): (n: nat)
    ensures n <= |items|
    ensures forall i :: 0 <= i < n ==> items[i].Data?
    ensures n < |items| ==> items[n].LineError?
    decreases |items|
  {
    if items == [] || items[0].LineError? then 0 else
      var n := Clean(items[1..]);
      assert forall i :: 0 < i < |items| ==> items[i] == items[1..][i - 1];
      1 + n
  }

  function Bytes(items: seq<Item>): (s: seq<Byte>)
    requires forall i :: 0 <= i < |items| ==> items[i].Data?
    ensures |s| == |items|
  {
    seq(|items|, i requires 0 <= i < |items| => items[i].b)
  }

  datatype Received = Got(data: seq<Byte>, rest: seq<Item>) | Faulted(mark: Byte)

  /** What a read of `n` bytes should give. */
  function Expected(items: seq<Item>, n: nat): Received {
    var k := Clean(items);
    if n <= k then Got(Bytes(items[..n]), items[n..])
    else if k == |items| then Got(Bytes(items), [])
    else Faulted(items[k].mark)
  }

  /** A read fails if and only if a line error comes before its last byte, and reports the first;
      otherwise it takes that many items, or all there are. */
  lemma ExpectedExactly(items: seq<Item>, n: nat)
    ensures Expected(items, n).Faulted? <==> exists i :: 0 <= i < n && i < |items| && items[i].LineError?
    ensures match Expected(items, n)
      case Faulted(mark) =>
        exists i ::
          0 <= i < n && i < |items| && items[i] == LineError(mark) && forall j :: 0 <= j < i ==> items[j].Data?
      case Got(data, rest) =>
        && items == seq(|data|, i requires 0 <= i < |data| => Data(data[i])) + rest
        && (|data| == n || (|data| < n && rest == []))
  {
    hide Clean;
    var k := Clean(items);
    CleanIs(items);
    if n <= k {
      assert items == items[..n] + items[n..];
    } else if k < |items| {
      assert items[k] == LineError(items[k].mark);
    }
  }

  lemma CleanIs(items: seq<Item>)
    ensures var k := Clean(items);
      k <= |items| && (forall i :: 0 <= i < k ==> items[i].Data?) && (k < |items| ==> items[k].LineError?)
  {}

  lemma {:induction false} CleanDrop(items: seq<Item>, n: nat)
    requires n <= Clean(items)
    ensures Clean(items[n..]) == Clean(items) - n
    decreases n
  {
    if n == 0 {
      assert items[0..] == items;
    } else {
      CleanDrop(items[1..], n - 1);
      assert items[1..][n - 1..] == items[n..];
    }
  }

  /** A read may be cut anywhere: n bytes and then m are n + m at once. */
  lemma ReadsCompose(items: seq<Item>, n: nat, m: nat)
    requires Expected(items, n).Got? && |Expected(items, n).data| == n
    ensures var first := Expected(items, n);
      match Expected(first.rest, m)
      case Faulted(mark) => Expected(items, n + m) == Faulted(mark)
      case Got(more, rest) => Expected(items, n + m) == Got(first.data + more, rest)
  {
    hide Clean, Bytes;
    var k := Clean(items);
    CleanDrop(items, n);
    CleanOf(items);
    CleanOf(items[n..]);
    if m <= k - n {
      BytesSplit(items[..n + m], n);
      assert items[..n + m][..n] == items[..n] && items[..n + m][n..] == items[n..][..m];
      assert items[n..][m..] == items[n + m..];
    } else if k == |items| {
      BytesSplit(items, n);
    } else {
      assert items[n..][k - n] == items[k];
    }
  }

  lemma CleanOf(items: seq<Item>)
    ensures forall i :: 0 <= i < Clean(items) ==> items[i].Data?
  {}

  lemma BytesSplit(items: seq<Item>, n: nat)
    requires n <= |items| && forall i :: 0 <= i < |items| ==> items[i].Data?
    ensures Bytes(items) == Bytes(items[..n]) + Bytes(items[n..])
  {}

  lemma EscapeEmpty(items: seq<Item>)
    ensures Escape(items) == [] <==> items == []
  {}

  /** Escaping is unambiguous. */
  lemma {:induction false} EscapeInjective(a: seq<Item>, b: seq<Item>)
    requires Escape(a) == Escape(b)
    ensures a == b
    decreases |a|
  {
    EscapeEmpty(a);
    EscapeEmpty(b);
    if a != [] {
      var s, t := Escape(a), Escape(b);
      assert s[0] == EscapeOne(a[0])[0] && t[0] == EscapeOne(b[0])[0];
      FirstEqual(a[0], Escape(a[1..]), b[0], Escape(b[1..]));
      assert Escape(a[1..]) == s[|EscapeOne(a[0])|..] && Escape(b[1..]) == t[|EscapeOne(b[0])|..];
      EscapeInjective(a[1..], b[1..]);
      assert a == [a[0]] + a[1..] && b == [b[0]] + b[1..];
    }
  }

  lemma FirstEqual(x: Item, s: seq<Byte>, y: Item, t: seq<Byte>)
    requires EscapeOne(x) + s == EscapeOne(y) + t
    ensures x == y
  {
    var u, v := EscapeOne(x) + s, EscapeOne(y) + t;
    assert u[0] == v[0];
    if u[0] == 0xff {
      assert u[1] == v[1];
      if u[1] == 0x00 {
        assert u[2] == v[2];
      }
    }
  }

  lemma EscapeHead(items: seq<Item>)
    ensures items != [] ==>
      var s := Escape(items); var head := EscapeOne(items[0]);
      && |s| >= |head| && s[0] == head[0] && s[|head|..] == Escape(items[1..])
      && (|head| > 1 ==> s[1] == head[1]) && (|head| > 2 ==> s[2] == head[2])
  {
    hide EscapeOne;
    if items != [] {
      assert |EscapeOne(items[0])| > 0 by { OneNotEmpty(items[0]); }
    }
  }

  lemma OneNotEmpty(item: Item)
    ensures |EscapeOne(item)| > 0
  {}

  datatype Mode = Normal | Escaped | Marked

  /** The raw bytes already taken from an item that is not finished yet. */
  function Taken(mode: Mode): seq<Byte> {
    match mode
    case Normal => []
    case Escaped => [0xff]
    case Marked => [0xff, 0x00]
  }

  /** What remains of the stream, seen from inside an item, starts as the mode allows. */
  lemma NextByte(items: seq<Item>, mode: Mode, rest: seq<Byte>)
    requires Taken(mode) + rest == Escape(items) && (mode != Normal || items != [])
    ensures rest != []
    ensures items != []
    ensures mode == Normal && rest[0] != 0xff ==> items[0] == Data(rest[0]) && rest[1..] == Escape(items[1..])
    ensures mode == Normal && rest[0] == 0xff ==> Taken(Escaped) + rest[1..] == Escape(items)
    ensures mode == Escaped ==> rest[0] == 0xff || rest[0] == 0x00
    ensures mode == Escaped && rest[0] == 0xff ==> items[0] == Data(0xff) && rest[1..] == Escape(items[1..])
    ensures mode == Escaped && rest[0] == 0x00 ==> Taken(Marked) + rest[1..] == Escape(items)
    ensures mode == Marked ==> items[0] == LineError(rest[0])
  {
    hide Escape;
    EscapeEmpty(items);
    EscapeHead(items);
    assert rest == Escape(items)[|Taken(mode)|..];
  }

  /** How a read-ahead of one escape unit looks at the bytes on the wire. */
  function PeekSize(input: seq<Byte>): (k: nat)
    ensures k <= |input| && k <= 3
  {
    if |input| == 0 then 0
    else if input[0] != 0xff || |input| == 1 then 1
    else if input[1] != 0x00 || |input| == 2 then 2
    else 3
  }

  /** The bytes that reads take out of the read-ahead buffer: the shift leaves its last cell, so
      a count beyond four yields that cell again. */
  function ReadAhead(rx: seq<Byte>, len: nat): (s: seq<Byte>)
    requires |rx| == 4
    ensures |s| == len
  {
    seq(len, i requires 0 <= i < len => rx[if i < 4 then i else 3])
  }

  /** The read-ahead after error(): the buffer's first cells are overwritten whatever they held,
      while the count grows. */
  function Peeked(rx: seq<Byte>, len: nat, input: seq<Byte>): seq<Byte>
    requires |rx| == 4
  {
    var k := PeekSize(input);
    ReadAhead(input[..k] + rx[k..], len + k)
  }

  lemma PeekedSoFar(rx: seq<Byte>, len: nat, input: seq<Byte>, k: nat, now: seq<Byte>)
    requires |rx| == 4 && k <= 3 && k <= |input|
    requires now == input[..k] + rx[k..]
    ensures PeekSize(input) == k ==> ReadAhead(now, len + k) == Peeked(rx, len, input)
    ensures len == 0 ==> ReadAhead(now, k) + input[k..] == input
  {
    hide PeekSize;
  }

  lemma NothingTakenYet(items: seq<Item>)
    ensures Taken(Normal) + Escape(items) == Escape(items)
  {}

  /** Nothing peeked is lost when the read-ahead buffer was empty ... */
  lemma PeekKeeps(rx: seq<Byte>, input: seq<Byte>)
    requires |rx| == 4
    ensures Peeked(rx, 0, input) + input[PeekSize(input)..] == input
  {
    var k := PeekSize(input);
    PeekedSoFar(rx, 0, input, k, input[..k] + rx[k..]);
  }

  /** ... and only then: with anything in it, some stream is changed. */
  lemma PeekLoses(rx: seq<Byte>, len: nat)
    requires |rx| == 4
    ensures (forall input: seq<Byte> :: Peeked(rx, len, input) + input[PeekSize(input)..] == ReadAhead(rx, len) + input)
      <==> len == 0
  {
    if len == 0 {
      forall input: seq<Byte>
        ensures Peeked(rx, len, input) + input[PeekSize(input)..] == ReadAhead(rx, len) + input
      {
        PeekKeeps(rx, input);
      }
    } else {
      var other: Byte := if rx[0] == 0x00 then 0x01 else 0x00;
      var input := [other];
      assert PeekSize(input) == 1;
      assert Peeked(rx, len, input)[0] == other && ReadAhead(rx, len)[0] == rx[0];
      assert (Peeked(rx, len, input) + input[PeekSize(input)..])[0] == other;
      assert (ReadAhead(rx, len) + input)[0] == rx[0];
    }
  }

  datatype Fault = None | Some(mark: Byte)

  class SerialPort {
    /** What the operating system holds, escaped. */
    var input: seq<Byte>
    const rxbuff: array<Byte>
    var len: nat

    constructor (input: seq<Byte>)
      ensures fresh(rxbuff) && Valid() && Pending() == input
    {
      this.input, len := input, 0;
      rxbuff := new Byte[4](_ => 0);
    }

    ghost predicate Valid()
      reads this
    {
      rxbuff.Length == 4
    }

    /** All bytes still to be decoded, read-ahead first. */
    ghost function Pending(): seq<Byte>
      requires Valid()
      reads this, rxbuff
    {
      ReadAhead(rxbuff[..], len) + input
    }

    /** read(2): some of the bytes there are, as many as it likes; 0 only when there are none. */
    method OsRead(buff: array<Byte>, at: nat, size: nat) returns (count: nat)
      requires at + size <= buff.Length && size > 0 && buff != rxbuff
      modifies `input, buff
      ensures count <= size && count <= |old(input)| && (count == 0 <==> old(input) == [])
      ensures input == old(input)[count..]
      ensures buff[at..at + count] == old(input)[..count]
      ensures forall i :: 0 <= i < at ==> buff[i] == old(buff[i])
    {
      var most := if size < |input| then size else |input|;
      var some: int := *;
      count := if some < 1 || some > most then most else some;
      forall i | 0 <= i < count {
        buff[at + i] := input[i];
      }
      input := input[count..];
    }

    /** One byte from the read-ahead buffer. */
    method Shift() returns (b: Byte)
      requires Valid() && len > 0
      modifies `len, rxbuff
      ensures Valid() && [b] + Pending() == old(Pending())
    {
      b := rxbuff[0];
      rxbuff[0], rxbuff[1], rxbuff[2] := rxbuff[1], rxbuff[2], rxbuff[3];
      len := len - 1;
    }

    /** The next raw bytes: one from the read-ahead buffer, or what the system has. */
    method Fetch(buff: array<Byte>, at: nat, size: nat) returns (count: nat)
      requires Valid() && buff != rxbuff && at + size <= buff.Length && size > 0
      modifies this, rxbuff, buff
      ensures Valid() && count <= size && (count == 0 <==> old(Pending()) == [])
      ensures old(Pending()) == buff[at..at + count] + Pending()
      ensures buff[..at] == old(buff[..at])
    {
      if len == 0 {
        count := OsRead(buff, at, size);
      } else {
        var b := Shift();
        buff[at] := b;
        count := 1;
      }
    }

    /** The inner loop of serialport::read over the raw bytes buff[dst0..end]: decoded bytes are
        stored from dst0 on and never overtake the bytes still to be decoded. */
    method Unescape(buff: array<Byte>, dst0: nat, end: nat, mode0: Mode, size: nat, ghost items: seq<Item>)
      returns (dst: nat, mode: Mode, fault: Fault)
      requires Valid() && buff != rxbuff && dst0 < end <= size <= buff.Length && dst0 <= Clean(items)
      requires buff[..dst0] == Bytes(items[..dst0])
      requires Taken(mode0) + (buff[dst0..end] + Pending()) == Escape(items[dst0..])
      modifies buff
      ensures fault.Some? ==> dst < |items| && dst == Clean(items) && dst < size && items[dst] == LineError(fault.mark)
      ensures fault.None? ==>
        && dst0 <= dst <= end && dst <= Clean(items) && buff[..dst] == Bytes(items[..dst])
        && Taken(mode) + Pending() == Escape(items[dst..])
        && (dst == size ==> mode == Normal) && (dst == dst0 ==> mode != Normal)
        && (mode != Normal ==> dst < |items|)
    {
      hide Clean, Bytes, Escape, Taken;
      dst, mode := dst0, mode0;
      var src := dst0;
      ghost var pending := Pending();
      while src < end
        invariant dst0 <= dst <= src <= end && dst <= Clean(items)
        invariant buff[..dst] == Bytes(items[..dst])
        invariant Taken(mode) + (buff[src..end] + pending) == Escape(items[dst..])
        invariant src > dst0 && mode != Normal ==> dst < src
        invariant src > dst0 && dst == dst0 ==> mode != Normal
        invariant src > dst0 && mode != Normal ==> dst < |items|
      {
        var b := buff[src];
        ghost var raw := buff[src + 1..end];
        assert buff[src..end] + pending == [b] + (raw + pending);
        Decode(items, dst, mode, b, raw + pending);
        match mode {
          case Normal =>
            if b == 0xff {
              mode := Escaped;
            } else {
              buff[dst] := b;
              dst := dst + 1;
            }
          case Escaped =>
            if b == 0xff {
              buff[dst] := b;
              dst := dst + 1;
              mode := Normal;
            } else {
              mode := Marked;
            }
          case Marked =>
            return dst, mode, Some(b);
        }
        src := src + 1;
        assert buff[src..end] == raw;
        assert Taken(Normal) + (raw + pending) == raw + pending by { NothingTakenIs(raw + pending); }
      }
      assert buff[src..end] == [] && [] + pending == pending;
      fault := None;
    }

    /** serialport::read, decoding in place: `dst` never overtakes `src`. */
    method Read(buff: array<Byte>, size: nat, ghost items: seq<Item>) returns (r: Result<nat>, ghost mark: Byte)
      requires Valid() && buff != rxbuff && size <= buff.Length
      requires Pending() == Escape(items)
      modifies this, rxbuff, buff
      ensures Valid()
      ensures match Expected(items, size)
        case Got(data, rest) => r == Ok(|data|) && mark == 0 && buff[..|data|] == data && Pending() == Escape(rest)
        case Faulted(m) => r == Fail(LinkFailed) && mark == m
    {
      hide Clean, Bytes, Escape, Expected, Taken;
      var dst, mode := 0, Normal;
      mark := 0;
      ReadStarts(items, buff[..0]);
      while dst < size
        invariant Valid() && dst <= size && dst <= Clean(items)
        invariant buff[..dst] == Bytes(items[..dst])
        invariant Taken(mode) + Pending() == Escape(items[dst..])
        invariant mode != Normal ==> dst < |items|
        invariant dst == size ==> mode == Normal
        decreases size - dst, |Pending()|
      {
        ghost var before := Pending();
        var count := Fetch(buff, dst, size - dst);
        if count == 0 {
          StreamEnds(items, dst, mode, size);
          return Ok(dst), 0;
        }
        var fault;
        dst, mode, fault := Unescape(buff, dst, dst + count, mode, size, items);
        if fault.Some? {
          FaultRead(items, size);
          return Fail(LinkFailed), fault.mark;
        }
      }
      WholeRead(items, dst);
      return Ok(dst), 0;
    }

    /** serialport::error: look for an error mark without taking anything from the stream. */
    method ErrorPending(ghost items: seq<Item>) returns (found: bool)
      requires Valid() && input == Escape(items)
      modifies this, rxbuff
      ensures Valid() && input == old(input)[PeekSize(old(input))..]
      ensures ReadAhead(rxbuff[..], len) == Peeked(old(rxbuff[..]), old(len), old(input))
      ensures old(len) == 0 ==> Pending() == old(Pending())
      ensures found <==> items != [] && items[0].LineError?
    {
      hide Escape, Peeked, EscapeOne, Taken;
      EscapeEmpty(items);
      NothingTakenYet(items);
      ghost var rx, n, stream := rxbuff[..], len, input;
      found := false;
      if input != [] {
        NextByte(items, Normal, input);
        ReadByte(0);
        if rxbuff[0] == 0xff {
          NextByte(items, Escaped, input);
          ReadByte(1);
          if rxbuff[1] == 0x00 {
            NextByte(items, Marked, input);
            ReadByte(2);
            found := true;
          }
        }
      }
      PeekedSoFar(rx, n, stream, PeekSize(stream), rxbuff[..]);
    }

    method ReadByte(i: nat)
      requires Valid() && i < 3 && input != []
      modifies this, rxbuff
      ensures Valid() && len == old(len) + 1 && input == old(input)[1..]
      ensures rxbuff[..] == old(rxbuff[..])[i := old(input)[0]]
    {
      rxbuff[i] := input[0];
      input := input[1..];
      len := len + 1;
    }

    method Flush()
      requires Valid()
      modifies this
      ensures Valid() && Pending() == []
    {
      len := 0;
      input := [];
    }
  }

  lemma NothingTakenIs(s: seq<Byte>)
    ensures Taken(Normal) + s == s
  {}

  /** What the next raw byte means, by mode. */
  lemma Decode(items: seq<Item>, dst: nat, mode: Mode, b: Byte, rest: seq<Byte>)
    requires dst <= |items| && dst <= Clean(items) && Taken(mode) + ([b] + rest) == Escape(items[dst..])
    ensures dst < |items|
    ensures (mode == Normal && b == 0xff) || (mode == Escaped && b != 0xff) ==>
      Taken(if mode == Normal then Escaped else Marked) + rest == Escape(items[dst..])
    ensures (mode == Normal && b != 0xff) || (mode == Escaped && b == 0xff) ==>
      && dst + 1 <= Clean(items) && Bytes(items[..dst + 1]) == Bytes(items[..dst]) + [b]
      && Taken(Normal) + rest == Escape(items[dst + 1..])
    ensures mode == Marked ==> items[dst] == LineError(b) && dst == Clean(items)
  {
    hide Clean, Bytes, Escape, EscapeOne;
    var s := [b] + rest;
    assert s[1..] == rest;
    StreamGoesOn(items, dst, mode, s);
    NextByte(items[dst..], mode, s);
    StepClean(items, dst);
  }

  lemma ReadStarts(items: seq<Item>, none: seq<Byte>)
    ensures Taken(Normal) + Escape(items) == Escape(items[0..]) && (none == [] ==> none == Bytes(items[..0]))
  {
    assert items[0..] == items;
  }

  /** The stream never ends inside an item, and one without errors that is shorter than asked
      for is read to its end. */
  lemma StreamEnds(items: seq<Item>, dst: nat, mode: Mode, size: nat)
    requires dst <= Clean(items) && Taken(mode) + [] == Escape(items[dst..]) && (mode != Normal ==> dst < |items|)
    requires dst <= size
    ensures mode == Normal && Expected(items, size) == Got(Bytes(items[..dst]), []) && Escape([]) == []
  {
    hide Clean, Bytes, Escape, Taken, EscapeOne;
    assert Taken(mode) + [] == Taken(mode);
    NothingTaken(items[dst..], mode);
    assert items[..dst] == items;
  }

  lemma NothingTaken(rest: seq<Item>, mode: Mode)
    requires Escape(rest) == Taken(mode)
    ensures rest == [] && mode == Normal && Escape([]) == []
  {
    EscapeEmpty(rest);
    EscapeHead(rest);
  }

  lemma FaultRead(items: seq<Item>, size: nat)
    requires Clean(items) < |items| && Clean(items) < size
    ensures Expected(items, size) == Faulted(items[Clean(items)].mark)
  {}

  lemma WholeRead(items: seq<Item>, n: nat)
    requires n <= Clean(items)
    ensures Expected(items, n) == Got(Bytes(items[..n]), items[n..])
  {}

  lemma StreamGoesOn(items: seq<Item>, dst: nat, mode: Mode, rest: seq<Byte>)
    requires dst <= |items| && Taken(mode) + rest == Escape(items[dst..]) && rest != []
    ensures dst < |items|
  {}

  /** Finishing a data item moves the clean prefix on by one. */
  lemma StepClean(items: seq<Item>, dst: nat)
    requires dst < |items| && dst <= Clean(items)
    ensures items[dst..][0] == items[dst] && items[dst..][1..] == items[dst + 1..]
    ensures items[dst].Data? ==>
      dst + 1 <= Clean(items) && Bytes(items[..dst + 1]) == Bytes(items[..dst]) + [items[dst].b]
    ensures items[dst].LineError? ==> Clean(items) == dst
  {
    hide Clean, Bytes;
    CleanOf(items);
    if items[dst].Data? {
      assert items[..dst + 1] == items[..dst] + [items[dst]];
      BytesSnoc(items[..dst], items[dst]);
    }
  }

  lemma BytesSnoc(items: seq<Item>, last: Item)
    requires last.Data? && forall i :: 0 <= i < |items| ==> items[i].Data?
    ensures Bytes(items + [last]) == Bytes(items) + [last.b]
  {}
}
