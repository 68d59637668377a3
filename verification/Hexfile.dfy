/** The Intel hexfile printer and parser of hexfile.c (Intel Hexadecimal Object File Format
    Specification, revision A, sections 2 to 8). */
module Hexfile {

  import opened Ez8
  import opened Text

  /** The sum of the bytes; the parser's checksum is its remainder modulo 256. */
  function Sum(bs: seq<Byte>): nat {
    if bs == [] then 0 else NatOf(bs[0]) + Sum(bs[1..])
  }

  lemma {:induction false} SumUpdate(bs: seq<Byte>, k: nat, b: Byte)
    requires k < |bs|
    ensures Sum(bs[k := b]) == Sum(bs) - NatOf(bs[k]) + NatOf(b)
    decreases |bs|
  {
    if k > 0 {
      assert bs[k := b][1..] == bs[1..][k - 1 := b];
      SumUpdate(bs[1..], k - 1, b);
    } else {
      assert bs[k := b][1..] == bs[1..];
    }
  }

  lemma {:induction false} SumConcat(a: seq<Byte>, b: seq<Byte>)
    ensures Sum(a + b) == Sum(a) + Sum(b)
    decreases |a|
  {
    if a == [] {
      assert a + b == b;
    } else {
      assert (a + b)[1..] == a[1..] + b;
      SumConcat(a[1..], b);
    }
  }

  // ----- One line -----

  datatype Parsed = Blank | Bad | Rec(kind: Byte, drlo: nat, data: seq<Byte>)

  /** The bytes of a record: size, address, type, data, checksum. */
  function RecordOf(bs: seq<Byte>): Parsed {
    if |bs| < 5 || Sum(bs) % 256 != 0 || NatOf(bs[0]) != |bs| - 5 then Bad
    else Rec(bs[3], 256 * NatOf(bs[1]) + NatOf(bs[2]), bs[4..|bs| - 1])
  }

  function ParseToken(tok: string): Parsed {
    if tok == [] then Blank
    else if tok[0] != ':' || !Digits(tok[1..]) then Bad
    else RecordOf(Packed(tok[1..]))
  }

  function ParseLine(line: string): Parsed {
    ParseToken(Token(line))
  }

  /** A digit of another value changes one byte, and that byte's value. */
  lemma PackedUpdate(s: string, i: nat, c: char)
    requires Digits(s) && i < |s| && IsHex(c) && HexValue(c) != HexValue(s[i])
    ensures Digits(s[i := c])
    ensures var k := i / 2; var b := Packed(s[i := c])[k];
      Packed(s[i := c]) == Packed(s)[k := b] && NatOf(b) != NatOf(Packed(s)[k])
  {
    hide Join, HexValue, IsHex, Packed, NatOf;
    var t := s[i := c];
    var k := i / 2;
    forall j | 0 <= j < |s| / 2
      ensures j != k ==> Packed(t)[j] == Packed(s)[j]
    {
      PackedAt(s, j);
      PackedAt(t, j);
    }
    PackedAt(s, k);
    PackedAt(t, k);
    JoinInjective(HexValue(s[2 * k]), HexValue(s[2 * k + 1]), HexValue(t[2 * k]), HexValue(t[2 * k + 1]));
  }

  /** Any one digit replaced by a digit of another value is noticed. */
  lemma DigitError(tok: string, i: nat, c: char)
    requires ParseToken(tok).Rec? && 1 <= i < |tok| && IsHex(c) && HexValue(c) != HexValue(tok[i])
    ensures ParseToken(tok[i := c]) == Bad
  {
    hide HexValue, IsHex, Packed, Sum, NatOf, RecordOf;
    var s, t := tok[1..], tok[1..][i - 1 := c];
    assert tok[i := c][1..] == t && tok[i := c][0] == ':';
    PackedUpdate(s, i - 1, c);
    var k := (i - 1) / 2;
    SumUpdate(Packed(s), k, Packed(t)[k]);
    SumDecides(Packed(s), Packed(t), NatOf(Packed(s)[k]), NatOf(Packed(t)[k]));
  }

  lemma SumDecides(a: seq<Byte>, b: seq<Byte>, x: nat, y: nat)
    requires RecordOf(a).Rec? && x < 256 && y < 256 && x != y && Sum(b) == Sum(a) - x + y
    ensures RecordOf(b) == Bad
  {
    hide Sum, NatOf;
  }

  /** The same, for a digit anywhere in an accepted line of a file. */
  lemma LineDigitError(line: string, i: nat, c: char)
    requires ParseLine(line).Rec? && IsHex(c)
    requires TokenStart(line) < i < TokenStart(line) + |Token(line)| && HexValue(c) != HexValue(line[i])
    ensures ParseLine(line[i := c]) == Bad
  {
    hide HexValue, ParseToken, TokenStart, TokenLength;
    var k := TokenStart(line);
    var n := TokenLength(line[k..]);
    var other := line[i := c];
    TokenStartIs(other, k);
    assert other[k..] == line[k..][i - k := c];
    TokenLengthIs(other[k..], n);
    assert Token(other) == Token(line)[i - k := c];
    assert Token(line)[i - k] == line[i];
    DigitError(Token(line), i - k, c);
  }

  // ----- Records -----

  /** Where the reader is: the buffer, and the segment or linear base in force. */
  datatype Reader = Reader(buff: seq<Byte>, sba: nat, lba: nat)

  datatype Progress = Failed(buff: seq<Byte>) | Ended(buff: seq<Byte>) | More(reader: Reader)

  /** The effective address of byte `i` of a data record. */
  function Effective(sba: nat, lba: nat, drlo: nat, i: nat): nat {
    if sba != 0 then 16 * sba + (drlo + i) % 0x10000 else (0x10000 * lba + drlo + i) % 0x1_0000_0000
  }

  /** Store data bytes from `i` on; a cell that is no longer the fill byte may not be stored to. */
  function StoreData(r: Reader, fill: Byte, drlo: nat, data: seq<Byte>, i: nat): Progress
    requires i <= |data|
    decreases |data| - i
  {
    if i == |data| then More(r) else
      var a := Effective(r.sba, r.lba, drlo, i);
      if a >= |r.buff| || r.buff[a] != fill then Failed(r.buff)
      else StoreData(r.(buff := r.buff[a := data[i]]), fill, drlo, data, i + 1)
  }

  function Word(data: seq<Byte>): nat
    requires |data| >= 2
  {
    256 * NatOf(data[0]) + NatOf(data[1])
  }

  function ReadRecord(r: Reader, fill: Byte, p: Parsed): Progress {
    match p
    case Blank => More(r)
    case Bad => Failed(r.buff)
    case Rec(kind, drlo, data) =>
      if kind == 0x00 then StoreData(r, fill, drlo, data, 0)
      else if kind == 0x01 then (if drlo != 0 || |data| != 0 then Failed(r.buff) else Ended(r.buff))
      else if kind == 0x02 then
        (if drlo != 0 || |data| != 2 then Failed(r.buff) else More(r.(sba := Word(data), lba := 0)))
      else if kind == 0x03 || kind == 0x05 then
        (if drlo != 0 || |data| != 4 then Failed(r.buff) else More(r))
      else if kind == 0x04 then
        (if drlo != 0 || |data| != 2 then Failed(r.buff) else More(r.(lba := Word(data), sba := 0)))
      else Failed(r.buff)
  }

  function ReadLines(r: Reader, fill: Byte, lines: seq<string>): Progress
    decreases |lines|
  {
    if lines == [] then Ended(r.buff) else
      match ReadRecord(r, fill, ParseLine(lines[0]))
      case More(next) => ReadLines(next, fill, lines[1..])
      case done => done
  }

  /** The effective addresses and bytes of one data record, from byte `i` on. */
  function RecordStores(sba: nat, lba: nat, drlo: nat, data: seq<Byte>, i: nat): (stores: seq<(nat, Byte)>)
    requires i <= |data|
    ensures |stores| == |data| - i
    ensures forall k :: 0 <= k < |stores| ==> stores[k] == (Effective(sba, lba, drlo, i + k), data[i + k])
    decreases |data| - i
  {
    if i == |data| then [] else
      [(Effective(sba, lba, drlo, i), data[i])] + RecordStores(sba, lba, drlo, data, i + 1)
  }

  /** The effective addresses and bytes of all data records up to the end record. */
  function Stores(sba: nat, lba: nat, lines: seq<string>): seq<(nat, Byte)>
    decreases |lines|
  {
    if lines == [] then [] else
      match ParseLine(lines[0])
      case Rec(kind, drlo, data) =>
        if kind == 0x00 then RecordStores(sba, lba, drlo, data, 0) + Stores(sba, lba, lines[1..])
        else if kind == 0x01 then []
        else if kind == 0x02 && |data| == 2 then Stores(Word(data), 0, lines[1..])
        else if kind == 0x04 && |data| == 2 then Stores(0, Word(data), lines[1..])
        else Stores(sba, lba, lines[1..])
      case _ => Stores(sba, lba, lines[1..])
  }

  /** Each store in turn is inside the buffer and hits a cell that still holds the fill byte. */
  predicate Clear(buff: seq<Byte>, fill: Byte, stores: seq<(nat, Byte)>)
    decreases |stores|
  {
    stores != [] ==>
      var (a, b) := stores[0];
      a < |buff| && buff[a] == fill && Clear(buff[a := b], fill, stores[1..])
  }

  function StoreAll(buff: seq<Byte>, stores: seq<(nat, Byte)>): (r: seq<Byte>)
    ensures |r| == |buff|
    decreases |stores|
  {
    if stores == [] || stores[0].0 >= |buff| then buff
    else StoreAll(buff[stores[0].0 := stores[0].1], stores[1..])
  }

  /** Every record up to the end record is one the reader knows, of the size it asks for. */
  predicate WellFormed(lines: seq<string>)
    decreases |lines|
  {
    lines != [] ==>
      match ParseLine(lines[0])
      case Blank => WellFormed(lines[1..])
      case Bad => false
      case Rec(kind, drlo, data) =>
        if kind == 0x00 then WellFormed(lines[1..])
        else if kind == 0x01 then drlo == 0 && data == []
        else if kind == 0x02 || kind == 0x04 then drlo == 0 && |data| == 2 && WellFormed(lines[1..])
        else (kind == 0x03 || kind == 0x05) && drlo == 0 && |data| == 4 && WellFormed(lines[1..])
  }

  lemma {:induction false} StoreDataAll(r: Reader, fill: Byte, drlo: nat, data: seq<Byte>, i: nat)
    requires i <= |data|
    ensures var stores := RecordStores(r.sba, r.lba, drlo, data, i);
      match StoreData(r, fill, drlo, data, i)
      case More(next) =>
        Clear(r.buff, fill, stores) && next == r.(buff := StoreAll(r.buff, stores))
      case Failed(buff) => |buff| == |r.buff| && !Clear(r.buff, fill, stores)
      case Ended(_) => false
    decreases |data| - i
  {
    hide Effective;
    if i < |data| {
      var a := Effective(r.sba, r.lba, drlo, i);
      var stores := RecordStores(r.sba, r.lba, drlo, data, i);
      assert stores[0] == (a, data[i]);
      assert stores[1..] == RecordStores(r.sba, r.lba, drlo, data, i + 1);
      if a < |r.buff| && r.buff[a] == fill {
        StoreDataAll(r.(buff := r.buff[a := data[i]]), fill, drlo, data, i + 1);
      }
    }
  }

  lemma {:induction false} StoreAllConcat(buff: seq<Byte>, fill: Byte, a: seq<(nat, Byte)>, b: seq<(nat, Byte)>)
    ensures Clear(buff, fill, a + b) <==> Clear(buff, fill, a) && Clear(StoreAll(buff, a), fill, b)
    ensures Clear(buff, fill, a) ==> StoreAll(buff, a + b) == StoreAll(StoreAll(buff, a), b)
    decreases |a|
  {
    if a == [] {
      assert a + b == b;
    } else {
      assert (a + b)[1..] == a[1..] + b;
      assert (a + b)[0] == a[0];
      if a[0].0 < |buff| {
        StoreAllConcat(buff[a[0].0 := a[0].1], fill, a[1..], b);
      }
    }
  }

  /** The file is accepted exactly when its records are well formed and every data byte falls
      inside the buffer on a cell still holding the fill byte; the buffer then is the old one
      with those bytes stored, in order, at their effective segment or linear addresses. */
  lemma {:induction false} ReadStores(r: Reader, fill: Byte, lines: seq<string>)
    ensures var stores := Stores(r.sba, r.lba, lines);
      match ReadLines(r, fill, lines)
      case Ended(buff) =>
        WellFormed(lines) && Clear(r.buff, fill, stores) && buff == StoreAll(r.buff, stores)
      case Failed(buff) => |buff| == |r.buff| && !(WellFormed(lines) && Clear(r.buff, fill, stores))
      case More(_) => false
    decreases |lines|
  {
    hide Effective, ParseLine, RecordStores, StoreData, Clear, StoreAll, Word;
    NoStores(r.buff, fill);
    if lines != [] {
      var p := ParseLine(lines[0]);
      if p.Rec? && p.kind == 0x00 {
        var first := RecordStores(r.sba, r.lba, p.drlo, p.data, 0);
        StoreDataAll(r, fill, p.drlo, p.data, 0);
        StoreAllConcat(r.buff, fill, first, Stores(r.sba, r.lba, lines[1..]));
        match StoreData(r, fill, p.drlo, p.data, 0)
        case More(next) => ReadStores(next, fill, lines[1..]);
        case _ =>
      } else {
        match ReadRecord(r, fill, p)
        case More(next) => ReadStores(next, fill, lines[1..]);
        case _ =>
      }
    }
  }

  lemma NoStores(buff: seq<Byte>, fill: Byte)
    ensures Clear(buff, fill, []) && StoreAll(buff, []) == buff
  {}

  /** What such stores leave: every byte that differs from the fill is in the buffer, at its
      address; and every cell is as before or holds a byte stored there. */
  lemma {:induction false} StoresStay(buff: seq<Byte>, fill: Byte, stores: seq<(nat, Byte)>)
    requires Clear(buff, fill, stores)
    ensures forall k :: 0 <= k < |stores| ==> stores[k].0 < |buff| && buff[stores[k].0] == fill
    ensures forall k :: 0 <= k < |stores| && stores[k].1 != fill ==> StoreAll(buff, stores)[stores[k].0] == stores[k].1
    ensures forall a :: 0 <= a < |buff| ==>
      StoreAll(buff, stores)[a] == buff[a] || (a, StoreAll(buff, stores)[a]) in stores
    decreases |stores|
  {
    if stores != [] {
      var (a, b) := stores[0];
      var next := buff[a := b];
      var rest := stores[1..];
      StoresStay(next, fill, rest);
      forall k | 0 <= k < |stores|
        ensures stores[k].0 < |buff| && buff[stores[k].0] == fill
        ensures stores[k].1 != fill ==> StoreAll(buff, stores)[stores[k].0] == stores[k].1
      {
        if k > 0 {
          assert stores[k] == rest[k - 1];
        } else if b != fill {
          Kept(next, fill, rest, a);
        }
      }
    }
  }

  lemma {:induction false} Kept(buff: seq<Byte>, fill: Byte, stores: seq<(nat, Byte)>, a: nat)
    requires Clear(buff, fill, stores) && a < |buff| && buff[a] != fill
    ensures StoreAll(buff, stores)[a] == buff[a]
    decreases |stores|
  {
    if stores != [] {
      Kept(buff[stores[0].0 := stores[0].1], fill, stores[1..], a);
    }
  }

  // ----- The printer -----

  function Negate(sum: nat): Byte {
    ByteOf((256 - sum % 256) % 256)
  }

  /** A record with its checksum. */
  function WithChecksum(bs: seq<Byte>): seq<Byte> {
    bs + [Negate(Sum(bs))]
  }

  function Line(bs: seq<Byte>): string {
    ":" + HexAll(WithChecksum(bs)) + "\n"
  }

  function RecordBytes(kind: Byte, drlo: nat, data: seq<Byte>): seq<Byte>
    requires drlo < 0x10000 && |data| < 256
  {
    [ByteOf(|data|), ByteOf(drlo / 256), ByteOf(drlo % 256), kind] + data
  }

  lemma ChecksumCloses(bs: seq<Byte>)
    ensures Sum(WithChecksum(bs)) % 256 == 0
  {
    hide Sum, NatOf, ByteOf;
    NatOfByteOf((256 - Sum(bs) % 256) % 256);
    SumConcat(bs, [Negate(Sum(bs))]);
    SumOne(Negate(Sum(bs)));
    NegateCloses(Sum(bs));
  }

  lemma SumOne(b: Byte)
    ensures Sum([b]) == NatOf(b)
  {
    assert [b][1..] == [];
  }

  lemma NegateCloses(n: nat)
    ensures (n + (256 - n % 256) % 256) % 256 == 0
  {}

  /** What is printed is parsed back as the same record. */
  lemma LineParses(kind: Byte, drlo: nat, data: seq<Byte>)
    requires drlo < 0x10000 && |data| < 256
    ensures ParseLine(Line(RecordBytes(kind, drlo, data))) == Rec(kind, drlo, data)
  {
    hide ByteOf, NatOf, Sum, Negate, HexValue, IsHex, HexAll, Packed;
    var bs := RecordBytes(kind, drlo, data);
    var all := WithChecksum(bs);
    var tok := ":" + HexAll(all);
    var line := Line(bs);
    LineToken(all, line);
    assert tok[1..] == HexAll(all);
    PackedHex(all);
    ChecksumCloses(bs);
    NatOfByteOf(|data|);
    NatOfByteOf(drlo / 256);
    NatOfByteOf(drlo % 256);
    assert all[4..|all| - 1] == data;
    assert all[0] == bs[0] && all[1] == bs[1] && all[2] == bs[2] && all[3] == kind;
  }

  lemma LineToken(all: seq<Byte>, line: string)
    requires line == ":" + HexAll(all) + "\n"
    ensures Token(line) == ":" + HexAll(all)
  {
    hide HexAll, TokenStart, TokenLength;
    TokenStartIs(line, 0);
    assert line[0..] == line;
    var n := 1 + |HexAll(all)|;
    assert forall j :: 1 <= j < n ==> line[j] == HexAll(all)[j - 1];
    TokenLengthIs(line, n);
  }

  /** The size the printer gives the next data record. */
  function ChunkSize(offset: nat, left: nat): (n: nat)
    ensures left > 0 ==> 0 < n <= left && n <= 16
  {
    var n := if offset % 16 != 0 then offset % 16 else 16;
    if left < n then left else n
  }

  /** Every record of `left` bytes from `offset` on starts below 4 GiB. */
  predicate Addressable(offset: nat, left: nat)
    decreases left
  {
    left > 0 ==>
      var n := ChunkSize(offset, left);
      offset < 0x1_0000_0000 && Addressable(offset + n, left - n)
  }

  lemma {:induction false} BelowIsAddressable(offset: nat, left: nat)
    requires offset + left <= 0x1_0000_0000
    ensures Addressable(offset, left)
    decreases left
  {
    if left > 0 {
      var n := ChunkSize(offset, left);
      BelowIsAddressable(offset + n, left - n);
    }
  }

  /** The printer's loop: where it is in the buffer, and the upper address last printed. */
  datatype Printer = Printer(offset: nat, left: nat, lba: nat)

  /** One round; the upper address is kept in sixteen bits. */
  function PrintRound(p: Printer): Printer {
    if p.left == 0 then p
    else if p.offset / 0x10000 != p.lba then p.(lba := p.offset / 0x10000 % 0x10000)
    else
      var n := ChunkSize(p.offset, p.left);
      Printer(p.offset + n, p.left - n, p.lba)
  }

  function PrintRounds(p: Printer, k: nat): Printer
    decreases k
  {
    if k == 0 then p else PrintRounds(PrintRound(p), k - 1)
  }

  /** From any other start the loop never ends: it meets an address whose upper part sixteen
      bits cannot hold, and prints address records for ever. */
  lemma {:induction false} PrintsForever(p: Printer, k: nat)
    requires !Addressable(p.offset, p.left) && p.lba < 0x10000
    ensures PrintRounds(p, k).left > 0
    decreases k
  {
    if k > 0 {
      PrintsForever(PrintRound(p), k - 1);
    }
  }

  /** The lines printed for `buff` at `offset` while the reader's linear base is `lba`. */
  function Lines(buff: seq<Byte>, offset: nat, lba: nat): seq<string>
    requires Addressable(offset, |buff|)
    decreases |buff|, if offset / 0x10000 != lba then 1 else 0
  {
    if buff == [] then [Line(RecordBytes(0x01, 0, []))]
    else if offset / 0x10000 != lba then
      var base := offset / 0x10000;
      [Line(RecordBytes(0x04, 0, [ByteOf(base / 256), ByteOf(base % 256)]))] + Lines(buff, offset, base)
    else
      var n := ChunkSize(offset, |buff|);
      [Line(RecordBytes(0x00, offset % 0x10000, buff[..n]))] + Lines(buff[n..], offset + n, lba)
  }

  /** The record a round prints, the last `p.left` bytes of the buffer being left. */
  function RoundLine(buff: seq<Byte>, p: Printer): string
    requires 0 < p.left <= |buff|
  {
    var rest := buff[|buff| - p.left..];
    if p.offset / 0x10000 != p.lba then
      var base := p.offset / 0x10000 % 0x10000;
      Line(RecordBytes(0x04, 0, [ByteOf(base / 256), ByteOf(base % 256)]))
    else Line(RecordBytes(0x00, p.offset % 0x10000, rest[..ChunkSize(p.offset, p.left)]))
  }

  /** Where the loop does end, its rounds print the specified records, but for the last. */
  lemma {:induction false} PrintsLines(buff: seq<Byte>, p: Printer, k: nat)
    requires p.left <= |buff| && p.lba < 0x10000 && Addressable(p.offset, p.left)
    ensures var lines := Lines(buff[|buff| - p.left..], p.offset, p.lba);
      && (PrintRounds(p, k).left > 0 <==> k < |lines| - 1)
      && PrintRounds(p, k).left <= |buff|
      && (k < |lines| - 1 ==> lines[k] == RoundLine(buff, PrintRounds(p, k)))
    decreases k, p.left
  {
    hide Line, RecordBytes, ByteOf, ChunkSize;
    var rest := buff[|buff| - p.left..];
    var lines := Lines(rest, p.offset, p.lba);
    if p.left == 0 {
      DoneStays(p, k);
    } else {
      var next := PrintRound(p);
      NextRound(buff, p);
      LinesNotEmpty(buff[|buff| - next.left..], next.offset, next.lba);
      if k > 0 {
        PrintsLines(buff, next, k - 1);
      }
    }
  }

  lemma NextRound(buff: seq<Byte>, p: Printer)
    requires 0 < p.left <= |buff| && p.lba < 0x10000 && Addressable(p.offset, p.left)
    ensures var next := PrintRound(p);
      && next.left <= p.left && next.lba < 0x10000 && Addressable(next.offset, next.left)
      && Lines(buff[|buff| - p.left..], p.offset, p.lba) ==
         [RoundLine(buff, p)] + Lines(buff[|buff| - next.left..], next.offset, next.lba)
  {
    hide Line, RecordBytes, ByteOf, ChunkSize;
    var rest := buff[|buff| - p.left..];
    assert p.offset / 0x10000 < 0x10000;
    if p.offset / 0x10000 == p.lba {
      var n := ChunkSize(p.offset, p.left);
      assert rest[n..] == buff[|buff| - (p.left - n)..];
    }
  }

  lemma LinesNotEmpty(buff: seq<Byte>, offset: nat, lba: nat)
    requires Addressable(offset, |buff|)
    ensures |Lines(buff, offset, lba)| > 0 && (buff == [] ==> |Lines(buff, offset, lba)| == 1)
  {
    hide Line, RecordBytes, ByteOf, ChunkSize;
  }

  lemma {:induction false} DoneStays(p: Printer, k: nat)
    requires p.left == 0
    ensures PrintRounds(p, k) == p
    decreases k
  {
    if k > 0 {
      DoneStays(p, k - 1);
    }
  }

  /** `m` with `data` copied in at `at`. */
  function Patch(m: seq<Byte>, at: nat, data: seq<Byte>): (r: seq<Byte>)
    requires at + |data| <= |m|
    ensures |r| == |m|
  {
    m[..at] + data + m[at + |data|..]
  }

  /** Storing a record's bytes at consecutive addresses over untouched cells succeeds. */
  lemma {:induction false} StoreDataPatch(r: Reader, fill: Byte, offset: nat, data: seq<Byte>, i: nat)
    requires r.sba == 0 && r.lba == offset / 0x10000 && i <= |data|
    requires offset + |data| <= |r.buff| && offset + |data| <= 0x1_0000_0000
    requires forall k :: offset + i <= k < offset + |data| ==> r.buff[k] == fill
    ensures StoreData(r, fill, offset % 0x10000, data, i) == More(r.(buff := Patch(r.buff, offset + i, data[i..])))
    decreases |data| - i
  {
    if i < |data| {
      var a := Effective(r.sba, r.lba, offset % 0x10000, i);
      assert a == offset + i;
      var next := r.(buff := r.buff[a := data[i]]);
      StoreDataPatch(next, fill, offset, data, i + 1);
      assert Patch(next.buff, offset + i + 1, data[i + 1..]) == Patch(r.buff, offset + i, data[i..]);
    } else {
      assert Patch(r.buff, offset + i, data[i..]) == r.buff;
    }
  }

  lemma PatchMore(m: seq<Byte>, at: nat, data: seq<Byte>, n: nat)
    requires at + |data| <= |m| && n <= |data|
    ensures Patch(Patch(m, at, data[..n]), at + n, data[n..]) == Patch(m, at, data)
    ensures forall k :: at + n <= k < |m| ==> Patch(m, at, data[..n])[k] == m[k]
  {}

  lemma PatchNothing(m: seq<Byte>, at: nat)
    requires at <= |m|
    ensures Patch(m, at, []) == m
  {}

  /** Reading back what was printed restores the bytes at their offset and touches nothing
      else, whatever 64K boundaries the records cross. */
  lemma {:induction false} ReadPrinted(r: Reader, fill: Byte, data: seq<Byte>, offset: nat)
    requires r.sba == 0 && offset + |data| <= |r.buff| && offset + |data| <= 0x1_0000_0000
    requires forall k :: offset <= k < offset + |data| ==> r.buff[k] == fill
    ensures Addressable(offset, |data|)
    ensures ReadLines(r, fill, Lines(data, offset, r.lba)) == Ended(Patch(r.buff, offset, data))
    decreases |data|, if offset / 0x10000 != r.lba then 1 else 0
  {
    hide ParseLine, Line, RecordBytes, StoreData, ByteOf, NatOf, Patch;
    BelowIsAddressable(offset, |data|);
    var lines := Lines(data, offset, r.lba);
    if data == [] {
      LineParses(0x01, 0, []);
      PatchNothing(r.buff, offset);
    } else if offset / 0x10000 != r.lba {
      var base := offset / 0x10000;
      var word := [ByteOf(base / 256), ByteOf(base % 256)];
      LineParses(0x04, 0, word);
      NatOfByteOf(base / 256);
      NatOfByteOf(base % 256);
      assert Word(word) == base;
      assert lines[1..] == Lines(data, offset, base);
      ReadPrinted(r.(lba := base), fill, data, offset);
    } else {
      var n := ChunkSize(offset, |data|);
      LineParses(0x00, offset % 0x10000, data[..n]);
      StoreDataPatch(r, fill, offset, data[..n], 0);
      assert data[..n][0..] == data[..n];
      var next := r.(buff := Patch(r.buff, offset, data[..n]));
      PatchMore(r.buff, offset, data, n);
      assert lines[1..] == Lines(data[n..], offset + n, r.lba);
      ReadPrinted(next, fill, data[n..], offset + n);
    }
  }

  // ----- Where the bytes of one record land -----

  /** The three lines of a file with one data record behind one base record. */
  function OneRecord(kind: Byte, base: nat, drlo: nat, data: seq<Byte>): seq<string>
    requires base < 0x10000 && drlo < 0x10000 && |data| < 256
  {
    [Line(RecordBytes(kind, 0, [ByteOf(base / 256), ByteOf(base % 256)])),
     Line(RecordBytes(0x00, drlo, data)),
     Line(RecordBytes(0x01, 0, []))]
  }

  /** Such a file, letter by letter. */
  lemma OneRecordSpelled()
    ensures OneRecord(0x02, 0x0100, 0x1a2b, [0x55, 0xde]) ==
      [":020000020100FB\n", ":021A2B0055DE86\n", ":00000001FF\n"]
  {
    hide Line;
    assert RecordBytes(0x02, 0, [ByteOf(0x0100 / 256), ByteOf(0x0100 % 256)]) == [0x02, 0x00, 0x00, 0x02, 0x01, 0x00];
    assert RecordBytes(0x00, 0x1a2b, [0x55, 0xde]) == [0x02, 0x1a, 0x2b, 0x00, 0x55, 0xde];
    assert RecordBytes(0x01, 0, []) == [0x00, 0x00, 0x00, 0x01];
    SpelledBase();
    SpelledData();
    SpelledEnd();
  }

  lemma SpelledBase()
    ensures Line([0x02, 0x00, 0x00, 0x02, 0x01, 0x00]) == ":020000020100FB\n"
  {
    hide Hex2, HexAll, Sum, NatOf, Negate, Line;
    SumSix(0x02, 0x00, 0x00, 0x02, 0x01, 0x00);
    HexSix(0x02, 0x00, 0x00, 0x02, 0x01, 0x00);
    SmallNumbers();
    HexBytes();
    Spelled([0x02, 0x00, 0x00, 0x02, 0x01, 0x00], 0xfb);
  }

  lemma SpelledData()
    ensures Line([0x02, 0x1a, 0x2b, 0x00, 0x55, 0xde]) == ":021A2B0055DE86\n"
  {
    hide Hex2, HexAll, Sum, NatOf, Negate, Line;
    SumSix(0x02, 0x1a, 0x2b, 0x00, 0x55, 0xde);
    HexSix(0x02, 0x1a, 0x2b, 0x00, 0x55, 0xde);
    SmallNumbers();
    HexBytes();
    Spelled([0x02, 0x1a, 0x2b, 0x00, 0x55, 0xde], 0x86);
  }

  lemma SpelledEnd()
    ensures Line([0x00, 0x00, 0x00, 0x01]) == ":00000001FF\n"
  {
    hide Hex2, HexAll, Sum, NatOf, Negate, Line;
    SumFour(0x00, 0x00, 0x00, 0x01);
    HexFour(0x00, 0x00, 0x00, 0x01);
    SmallNumbers();
    HexBytes();
    Spelled([0x00, 0x00, 0x00, 0x01], 0xff);
  }

  lemma Spelled(bs: seq<Byte>, checksum: Byte)
    requires Negate(Sum(bs)) == checksum
    ensures Line(bs) == ":" + HexAll(bs) + Hex2(checksum) + "\n"
  {
    hide Sum, Negate, HexAll, Hex2;
    HexMore(bs, checksum);
  }

  lemma SmallNumbers()
    ensures NatOf(0x00) == 0 && NatOf(0x01) == 1 && NatOf(0x02) == 2 && NatOf(0x1a) == 0x1a
    ensures NatOf(0x2b) == 0x2b && NatOf(0x55) == 0x55 && NatOf(0xde) == 0xde
    ensures Negate(1) == 0xff && Negate(5) == 0xfb && Negate(0x17a) == 0x86
  {
    hide ByteOf;
    LargeBytes();
  }

  lemma LargeBytes()
    ensures ByteOf(0xff) == 0xff && ByteOf(0xfb) == 0xfb && ByteOf(0x86) == 0x86
  {}

  lemma SumMore(bs: seq<Byte>, b: Byte)
    ensures Sum(bs + [b]) == Sum(bs) + NatOf(b)
  {
    hide Sum;
    SumConcat(bs, [b]);
    SumOne(b);
  }

  lemma SumFour(a: Byte, b: Byte, c: Byte, d: Byte)
    ensures Sum([a, b, c, d]) == NatOf(a) + NatOf(b) + NatOf(c) + NatOf(d)
  {
    hide Sum;
    SumOne(a);
    SumMore([a], b);
    SumMore([a, b], c);
    SumMore([a, b, c], d);
    assert [a] + [b] == [a, b] && [a, b] + [c] == [a, b, c] && [a, b, c] + [d] == [a, b, c, d];
  }

  lemma SumSix(a: Byte, b: Byte, c: Byte, d: Byte, e: Byte, f: Byte)
    ensures Sum([a, b, c, d, e, f]) == NatOf(a) + NatOf(b) + NatOf(c) + NatOf(d) + NatOf(e) + NatOf(f)
  {
    hide Sum;
    SumFour(a, b, c, d);
    SumMore([a, b, c, d], e);
    SumMore([a, b, c, d, e], f);
    assert [a, b, c, d] + [e] == [a, b, c, d, e] && [a, b, c, d, e] + [f] == [a, b, c, d, e, f];
  }

  lemma HexMore(bs: seq<Byte>, b: Byte)
    ensures HexAll(bs + [b]) == HexAll(bs) + Hex2(b)
  {
    hide Hex2;
    HexAllConcat(bs, [b]);
    HexOne(b);
  }

  lemma HexFour(a: Byte, b: Byte, c: Byte, d: Byte)
    ensures HexAll([a, b, c, d]) == Hex2(a) + Hex2(b) + Hex2(c) + Hex2(d)
  {
    hide Hex2, HexAll;
    assert HexAll([a]) == Hex2(a) by { HexOne(a); }
    HexMore([a], b);
    HexMore([a, b], c);
    HexMore([a, b, c], d);
    assert [a] + [b] == [a, b] && [a, b] + [c] == [a, b, c] && [a, b, c] + [d] == [a, b, c, d];
  }

  lemma HexSix(a: Byte, b: Byte, c: Byte, d: Byte, e: Byte, f: Byte)
    ensures HexAll([a, b, c, d, e, f]) == Hex2(a) + Hex2(b) + Hex2(c) + Hex2(d) + Hex2(e) + Hex2(f)
  {
    hide Hex2, HexAll;
    HexFour(a, b, c, d);
    HexMore([a, b, c, d], e);
    HexMore([a, b, c, d, e], f);
    assert [a, b, c, d] + [e] == [a, b, c, d, e] && [a, b, c, d, e] + [f] == [a, b, c, d, e, f];
  }

  lemma HexOne(b: Byte)
    ensures HexAll([b]) == Hex2(b)
  {
    hide Hex2;
    assert [b][1..] == [];
  }

  lemma HexBytes()
    ensures Hex2(0x00) == "00" && Hex2(0x01) == "01" && Hex2(0x02) == "02" && Hex2(0x1a) == "1A" && Hex2(0x2b) == "2B"
    ensures Hex2(0x55) == "55" && Hex2(0xde) == "DE" && Hex2(0xfb) == "FB" && Hex2(0x86) == "86" && Hex2(0xff) == "FF"
  {
    hide HexDigit, NatOf;
    Digits16();
    SmallNumbers();
    assert NatOf(0xfb) == 0xfb && NatOf(0x86) == 0x86 && NatOf(0xff) == 0xff by { LargeNumbers(); }
  }

  lemma LargeNumbers()
    ensures NatOf(0xfb) == 0xfb && NatOf(0x86) == 0x86 && NatOf(0xff) == 0xff
  {}

  lemma Digits16()
    ensures HexDigit(0) == '0' && HexDigit(1) == '1' && HexDigit(2) == '2' && HexDigit(5) == '5' && HexDigit(6) == '6'
    ensures HexDigit(8) == '8' && HexDigit(10) == 'A' && HexDigit(11) == 'B' && HexDigit(13) == 'D'
    ensures HexDigit(14) == 'E' && HexDigit(15) == 'F'
  {}

  /** A byte for every address of a record, stored over the fill; the rest of the buffer stays. */
  predicate Placed(before: seq<Byte>, after: seq<Byte>, at: seq<nat>, data: seq<Byte>, i: nat)
    requires i <= |at| == |data|
  {
    && |after| == |before|
    && (forall k :: i <= k < |at| ==> at[k] < |after| && after[at[k]] == data[k])
    && forall a :: 0 <= a < |after| && a !in at[i..] ==> after[a] == before[a]
  }

  predicate AllFree(buff: seq<Byte>, fill: Byte, at: seq<nat>, i: nat) {
    forall k :: i <= k < |at| ==> at[k] < |buff| && buff[at[k]] == fill
  }

  lemma {:induction false} StoreDataPlaced(r: Reader, fill: Byte, drlo: nat, data: seq<Byte>, at: seq<nat>, i: nat)
    requires i <= |data| == |at|
    requires forall k :: 0 <= k < |at| ==> at[k] == Effective(r.sba, r.lba, drlo, k)
    requires forall k, l :: 0 <= k < l < |at| ==> at[k] != at[l]
    ensures match StoreData(r, fill, drlo, data, i)
      case More(next) =>
        AllFree(r.buff, fill, at, i) && next == r.(buff := next.buff) && Placed(r.buff, next.buff, at, data, i)
      case Failed(_) => !AllFree(r.buff, fill, at, i)
      case Ended(_) => false
    decreases |data| - i
  {
    hide Effective;
    if i < |data| {
      assert at[i] == Effective(r.sba, r.lba, drlo, i);
      assert at[i..] == [at[i]] + at[i + 1..];
      if at[i] < |r.buff| && r.buff[at[i]] == fill {
        var next := r.(buff := r.buff[at[i] := data[i]]);
        StoreDataPlaced(next, fill, drlo, data, at, i + 1);
        StoredFirst(r.buff, fill, at, data, i);
      }
    }
  }

  lemma StoredFirst(buff: seq<Byte>, fill: Byte, at: seq<nat>, data: seq<Byte>, i: nat)
    requires i < |data| == |at| && at[i] < |buff| && buff[at[i]] == fill
    requires forall k, l :: 0 <= k < l < |at| ==> at[k] != at[l]
    ensures var next := buff[at[i] := data[i]];
      && (AllFree(next, fill, at, i + 1) <==> AllFree(buff, fill, at, i))
      && forall after :: Placed(next, after, at, data, i + 1) ==> Placed(buff, after, at, data, i)
  {
    var next := buff[at[i] := data[i]];
    assert at[i..] == [at[i]] + at[i + 1..];
    assert at[i] !in at[i + 1..];
    forall after | Placed(next, after, at, data, i + 1)
      ensures Placed(buff, after, at, data, i)
    {
      assert after[at[i]] == next[at[i]];
    }
  }

  lemma OneRecordRead(r: Reader, fill: Byte, kind: Byte, base: nat, drlo: nat, data: seq<Byte>, at: seq<nat>)
    requires (kind == 0x02 || kind == 0x04) && base < 0x10000 && drlo < 0x10000 && |data| < 256 && |at| == |data|
    requires forall k :: 0 <= k < |at| ==>
      at[k] == Effective(if kind == 0x02 then base else 0, if kind == 0x02 then 0 else base, drlo, k)
    requires forall k, l :: 0 <= k < l < |at| ==> at[k] != at[l]
    ensures match ReadLines(r, fill, OneRecord(kind, base, drlo, data))
      case Ended(buff) => AllFree(r.buff, fill, at, 0) && Placed(r.buff, buff, at, data, 0)
      case Failed(_) => !AllFree(r.buff, fill, at, 0)
      case More(_) => false
  {
    hide ParseLine, Line, RecordBytes, StoreData, ByteOf, NatOf, Effective, Placed, AllFree;
    var word := [ByteOf(base / 256), ByteOf(base % 256)];
    NatOfByteOf(base / 256);
    NatOfByteOf(base % 256);
    assert Word(word) == base;
    LineParses(kind, 0, word);
    LineParses(0x00, drlo, data);
    LineParses(0x01, 0, []);
    var lines := OneRecord(kind, base, drlo, data);
    var last := Line(RecordBytes(0x01, 0, []));
    var next := if kind == 0x02 then r.(sba := base, lba := 0) else r.(lba := base, sba := 0);
    NextLine(r, fill, Line(RecordBytes(kind, 0, word)), [Line(RecordBytes(0x00, drlo, data)), last]);
    NextLine(next, fill, Line(RecordBytes(0x00, drlo, data)), [last]);
    assert ReadLines(r, fill, lines) == ReadLines(next, fill, [Line(RecordBytes(0x00, drlo, data)), last]);
    StoreDataPlaced(next, fill, drlo, data, at, 0);
    var stored := StoreData(next, fill, drlo, data, 0);
    if stored.More? {
      NextLine(stored.reader, fill, last, []);
    }
  }

  lemma NextLine(r: Reader, fill: Byte, line: string, rest: seq<string>)
    ensures var p := ReadRecord(r, fill, ParseLine(line));
      ReadLines(r, fill, [line] + rest) == if p.More? then ReadLines(p.reader, fill, rest) else p
  {
    assert ([line] + rest)[1..] == rest;
  }

  /** Behind a segment record, byte `k` of a data record lands at sixteen times the segment plus
      its offset, which wraps at 64K; the file is accepted exactly when all those cells are in the
      buffer and free. */
  lemma ReadSegment(r: Reader, fill: Byte, segment: nat, drlo: nat, data: seq<Byte>, at: seq<nat>)
    requires 0 < segment < 0x10000 && drlo < 0x10000 && |data| < 256 && |at| == |data|
    requires forall k :: 0 <= k < |at| ==> at[k] == segment * 16 + (drlo + k) % 0x10000
    ensures match ReadLines(r, fill, OneRecord(0x02, segment, drlo, data))
      case Ended(buff) => AllFree(r.buff, fill, at, 0) && Placed(r.buff, buff, at, data, 0)
      case Failed(_) => !AllFree(r.buff, fill, at, 0)
      case More(_) => false
  {
    hide AllFree, Placed, ReadLines, OneRecord;
    OneRecordRead(r, fill, 0x02, segment, drlo, data, at);
  }

  /** Behind a linear record, at 64K times its word plus the offset, which wraps at 4 GiB only. */
  lemma ReadLinear(r: Reader, fill: Byte, word: nat, drlo: nat, data: seq<Byte>, at: seq<nat>)
    requires word < 0x10000 && drlo < 0x10000 && |data| < 256 && |at| == |data|
    requires forall k :: 0 <= k < |at| ==> at[k] == (word * 0x10000 + drlo + k) % 0x1_0000_0000
    ensures match ReadLines(r, fill, OneRecord(0x04, word, drlo, data))
      case Ended(buff) => AllFree(r.buff, fill, at, 0) && Placed(r.buff, buff, at, data, 0)
      case Failed(_) => !AllFree(r.buff, fill, at, 0)
      case More(_) => false
  {
    hide AllFree, Placed, ReadLines, OneRecord;
    OneRecordRead(r, fill, 0x04, word, drlo, data, at);
  }

  // ----- The reader and the writer -----

  /** One record, printed byte by byte while the checksum is added up modulo 256. */
  method PrintRecord(kind: Byte, drlo: nat, data: seq<Byte>) returns (line: string)
    requires drlo < 0x10000 && |data| < 256
    ensures line == Line(RecordBytes(kind, drlo, data))
  {
    hide ByteOf, NatOf, Hex2, HexAll, Sum, Checksum;
    var head := [ByteOf(|data|), ByteOf(drlo / 256), ByteOf(drlo % 256), kind];
    ghost var bs := RecordBytes(kind, drlo, data);
    var checksum := 0;
    line := ":";
    NoBytes();
    assert bs[..0] == [];
    var i := 0;
    while i < 4 + |data|
      invariant i <= 4 + |data| == |bs|
      invariant line == ":" + HexAll(bs[..i]) && checksum == Checksum(bs[..i])
    {
      var b := if i < 4 then head[i] else data[i - 4];
      line := line + Hex2(b);
      checksum := (checksum + NatOf(b)) % 256;
      assert bs[..i + 1] == bs[..i] + [b];
      HexAllConcat(bs[..i], [b]);
      OneByte(b);
      ChecksumGrows(bs[..i], b);
      i := i + 1;
    }
    assert bs[..i] == bs;
    NegateChecksum(bs);
    var last := ByteOf((256 - checksum) % 256);
    line := line + Hex2(last) + "\n";
    HexAllConcat(bs, [last]);
    OneByte(last);
  }

  /** The running checksum: a byte added modulo 256. */
  function Checksum(bs: seq<Byte>): nat {
    Sum(bs) % 256
  }

  lemma ChecksumGrows(bs: seq<Byte>, b: Byte)
    ensures Checksum(bs + [b]) == (Checksum(bs) + NatOf(b)) % 256
  {
    hide Sum, NatOf;
    SumConcat(bs, [b]);
    OneByte(b);
  }

  lemma NoBytes()
    ensures HexAll([]) == [] && Checksum([]) == 0
  {}

  lemma NegateChecksum(bs: seq<Byte>)
    ensures Checksum(bs) < 256 && Negate(Sum(bs)) == ByteOf((256 - Checksum(bs)) % 256)
  {}

  lemma OneByte(b: Byte)
    ensures HexAll([b]) == Hex2(b) && Sum([b]) == NatOf(b)
  {
    SumOne(b);
    assert [b][1..] == [];
    assert HexAll([]) == [];
  }

  lemma LinesNext(buff: seq<Byte>, offset: nat, lba: nat)
    requires Addressable(offset, |buff|)
    ensures buff != [] ==> offset / 0x10000 < 0x10000
    ensures var n := if offset % 16 != 0 then offset % 16 else 16;
      var size := if |buff| < n then |buff| else n;
      var base := offset / 0x10000;
      && (buff != [] ==> Addressable(offset + size, |buff| - size))
      && Lines(buff, offset, lba) ==
      if buff == [] then [Line(RecordBytes(0x01, 0, []))]
      else if base != lba then
        [Line(RecordBytes(0x04, 0, [ByteOf(base / 256), ByteOf(base % 256)]))] + Lines(buff, offset, base)
      else [Line(RecordBytes(0x00, offset % 0x10000, buff[..size]))] + Lines(buff[size..], offset + size, lba)
  {
    hide Line, RecordBytes, ByteOf;
  }

  lemma MoreLines(file: seq<string>, line: string, rest: seq<string>)
    ensures (file + [line]) + rest == file + ([line] + rest)
  {}

  method WrHexfile(buff: seq<Byte>, start: nat) returns (file: seq<string>)
    requires Addressable(start, |buff|)
    ensures file == Lines(buff, start, 0)
  {
    hide *;
    file := [];
    var lba: nat, offset: nat, rest := 0, start, buff;
    while |rest| > 0
      invariant Addressable(offset, |rest|) && file + Lines(rest, offset, lba) == Lines(buff, start, 0)
      decreases |rest|, if offset / 0x10000 != lba then 1 else 0
    {
      LinesNext(rest, offset, lba);
      if offset / 0x10000 != lba {
        lba := offset / 0x10000;
        var line := PrintRecord(0x04, 0, [ByteOf(lba / 256), ByteOf(lba % 256)]);
        MoreLines(file, line, Lines(rest, offset, lba));
        file := file + [line];
        continue;
      }
      var size := if offset % 16 != 0 then offset % 16 else 16;
      size := if |rest| < size then |rest| else size;
      var line := PrintRecord(0x00, offset % 0x10000, rest[..size]);
      MoreLines(file, line, Lines(rest[size..], offset + size, lba));
      file := file + [line];
      offset := offset + size;
      rest := rest[size..];
    }
    LinesNext(rest, offset, lba);
    var line := PrintRecord(0x01, 0, []);
    file := file + [line];
  }

  /** Remove the ascii bias of the digits, in place. */
  method ToNibbles(data: array<nat>, s: string) returns (ok: bool)
    requires data[..] == seq(|s|, i requires 0 <= i < |s| => s[i] as nat)
    modifies data
    ensures ok <==> forall k :: 0 <= k < |s| ==> IsHex(s[k])
    ensures ok ==> forall k :: 0 <= k < |s| ==> data[k] == HexValue(s[k])
  {
    hide HexValue, IsHex;
    assert data.Length == |s|;
    assert forall k :: 0 <= k < |s| ==> data[k] == data[..][k];
    var end := 0;
    while end < data.Length
      invariant end <= |s|
      invariant forall k :: 0 <= k < end ==> IsHex(s[k]) && data[k] == HexValue(s[k])
      invariant forall k :: end <= k < |s| ==> data[k] == s[k] as nat
    {
      var nibble := HexValue(data[end] as char);
      if nibble == 16 {
        return false;
      }
      data[end] := nibble;
      end := end + 1;
    }
    return true;
  }

  /** Pack the nibbles into bytes, in place. */
  method Pack(data: array<nat>, s: string) returns (size: nat)
    requires data.Length == |s| && Digits(s)
    requires forall k :: 0 <= k < |s| ==> data[k] == HexValue(s[k])
    modifies data
    ensures 2 * size == |s| && forall k :: 0 <= k < size ==> data[k] == NatOf(Packed(s)[k])
  {
    hide HexValue, IsHex, Packed, NatOf, Join;
    size := 0;
    while 2 * size != |s|
      invariant 2 * size <= |s|
      invariant forall k :: 0 <= k < size ==> data[k] == NatOf(Packed(s)[k])
      invariant forall k :: 2 * size <= k < |s| ==> data[k] == HexValue(s[k])
    {
      PackedAt(s, size);
      NatOfJoin(data[2 * size], data[2 * size + 1]);
      data[size] := 16 * data[2 * size] + data[2 * size + 1];
      size := size + 1;
    }
  }

  method AddUp(data: seq<nat>, ghost bs: seq<Byte>) returns (checksum: nat)
    requires |data| == |bs| && forall k :: 0 <= k < |bs| ==> data[k] == NatOf(bs[k])
    ensures checksum == Sum(bs) % 256
  {
    hide Sum, NatOf, Checksum;
    checksum := 0;
    var i := 0;
    NoBytes();
    assert bs[..0] == [];
    while i < |data|
      invariant i <= |data| && checksum == Checksum(bs[..i])
    {
      assert bs[..i + 1] == bs[..i] + [bs[i]];
      ChecksumGrows(bs[..i], bs[i]);
      checksum := (checksum + data[i]) % 256;
      i := i + 1;
    }
    assert bs[..i] == bs;
    ChecksumIs(bs);
  }

  lemma ChecksumIs(bs: seq<Byte>)
    ensures Checksum(bs) == Sum(bs) % 256
  {}

  /** One token: its digits become nibbles, then bytes, then fields. */
  method ReadToken(tok: string) returns (p: Parsed)
    ensures p == ParseToken(tok)
  {
    hide HexValue, IsHex, ByteOf, NatOf, Sum, Packed;
    if tok == [] {
      return Blank;
    }
    if tok[0] != ':' {
      return Bad;
    }
    var s := tok[1..];
    var data := new nat[|s|](i requires 0 <= i < |s| => s[i] as nat);
    var ok := ToNibbles(data, s);
    if !ok || |s| % 2 != 0 || |s| < 10 {
      return Bad;
    }
    var size := Pack(data, s);
    ghost var bs := Packed(s);
    var bytes := data[..size];
    var checksum := AddUp(bytes, bs);
    if checksum != 0 || bytes[0] != size - 5 {
      return Bad;
    }
    forall k | 0 <= k < size ensures bytes[k] < 256 && ByteOf(bytes[k]) == bs[k] {
      assert bytes[k] == NatOf(bs[k]);
      ByteOfNatOf(bs[k]);
    }
    var payload := seq(size - 5, k requires 0 <= k < size - 5 => ByteOf(bytes[4 + k]));
    assert payload == bs[4..|bs| - 1];
    p := Rec(ByteOf(bytes[3]), 256 * bytes[1] + bytes[2], payload);
  }

  method StoreRecord(buff: array<Byte>, fill: Byte, sba: nat, lba: nat, drlo: nat, data: seq<Byte>) returns (ok: bool)
    modifies buff
    ensures StoreData(Reader(old(buff[..]), sba, lba), fill, drlo, data, 0) ==
            if ok then More(Reader(buff[..], sba, lba)) else Failed(buff[..])
  {
    hide Effective;
    var dri := 0;
    while dri < |data|
      invariant dri <= |data|
      invariant StoreData(Reader(buff[..], sba, lba), fill, drlo, data, dri) ==
                StoreData(Reader(old(buff[..]), sba, lba), fill, drlo, data, 0)
    {
      var address := Effective(sba, lba, drlo, dri);
      if address >= buff.Length {
        return false;
      }
      if buff[address] != fill {
        return false;
      }
      buff[address] := data[dri];
      dri := dri + 1;
    }
    return true;
  }

  /** `lines` is the file up to its end; the fill byte is the buffer's first byte. */
  method RdIhex(buff: array<Byte>, lines: seq<string>) returns (ok: bool)
    requires buff.Length > 0
    modifies buff
    ensures ReadLines(Reader(old(buff[..]), 0, 0), old(buff[0]), lines) ==
            if ok then Ended(buff[..]) else Failed(buff[..])
  {
    hide Word, StoreData, TokenStart, TokenLength, ParseToken;
    var sba: nat, lba: nat, line: nat, fill := 0, 0, 0, buff[0];
    while line < |lines|
      invariant line <= |lines|
      invariant ReadLines(Reader(buff[..], sba, lba), fill, lines[line..]) ==
                ReadLines(Reader(old(buff[..]), 0, 0), fill, lines)
    {
      var p := ReadToken(Token(lines[line]));
      assert lines[line..][1..] == lines[line + 1..];
      line := line + 1;
      match p
      case Blank =>
      case Bad => return false;
      case Rec(kind, drlo, data) =>
        if kind == 0x00 {
          ok := StoreRecord(buff, fill, sba, lba, drlo, data);
          if !ok {
            return;
          }
        } else if drlo != 0 || |data| != (if kind == 0x01 then 0 else if kind == 0x03 || kind == 0x05 then 4 else 2) {
          return false;
        } else if kind == 0x01 {
          return true;
        } else if kind == 0x02 {
          sba, lba := Word(data), 0;
        } else if kind == 0x04 {
          sba, lba := 0, Word(data);
        } else if kind != 0x03 && kind != 0x05 {
          return false;
        }
    }
    return true;
  }
}
