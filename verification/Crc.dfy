/** The 16-bit checksum of crc.c: the device computes it over its flash and the
    host over its copy, and equal checksums are taken to mean equal memories. */
module Crc {

  // ----- The table -----

  /** One entry of a row of sixteen. */
  function Pick(i: bv8, e0: bv16, e1: bv16, e2: bv16, e3: bv16, e4: bv16, e5: bv16, e6: bv16, e7: bv16,
                e8: bv16, e9: bv16, e10: bv16, e11: bv16, e12: bv16, e13: bv16, e14: bv16, e15: bv16): bv16
  {
    if i == 0 then e0 else if i == 1 then e1 else if i == 2 then e2 else if i == 3 then e3 else
    if i == 4 then e4 else if i == 5 then e5 else if i == 6 then e6 else if i == 7 then e7 else
    if i == 8 then e8 else if i == 9 then e9 else if i == 10 then e10 else if i == 11 then e11 else
    if i == 12 then e12 else if i == 13 then e13 else if i == 14 then e14 else e15
  }

  /** The 256 literals of the static table, sixteen to a row. */
  function Table(x: bv8): bv16 {
    var row, i := x >> 4, x & 0xf;
    if row == 0 then Pick(i, 0x0000, 0x1189, 0x2312, 0x329B, 0x4624, 0x57AD, 0x6536, 0x74BF,
        0x8C48, 0x9DC1, 0xAF5A, 0xBED3, 0xCA6C, 0xDBE5, 0xE97E, 0xF8F7) else
    if row == 1 then Pick(i, 0x1081, 0x0108, 0x3393, 0x221A, 0x56A5, 0x472C, 0x75B7, 0x643E,
        0x9CC9, 0x8D40, 0xBFDB, 0xAE52, 0xDAED, 0xCB64, 0xF9FF, 0xE876) else
    if row == 2 then Pick(i, 0x2102, 0x308B, 0x0210, 0x1399, 0x6726, 0x76AF, 0x4434, 0x55BD,
        0xAD4A, 0xBCC3, 0x8E58, 0x9FD1, 0xEB6E, 0xFAE7, 0xC87C, 0xD9F5) else
    if row == 3 then Pick(i, 0x3183, 0x200A, 0x1291, 0x0318, 0x77A7, 0x662E, 0x54B5, 0x453C,
        0xBDCB, 0xAC42, 0x9ED9, 0x8F50, 0xFBEF, 0xEA66, 0xD8FD, 0xC974) else
    if row == 4 then Pick(i, 0x4204, 0x538D, 0x6116, 0x709F, 0x0420, 0x15A9, 0x2732, 0x36BB,
        0xCE4C, 0xDFC5, 0xED5E, 0xFCD7, 0x8868, 0x99E1, 0xAB7A, 0xBAF3) else
    if row == 5 then Pick(i, 0x5285, 0x430C, 0x7197, 0x601E, 0x14A1, 0x0528, 0x37B3, 0x263A,
        0xDECD, 0xCF44, 0xFDDF, 0xEC56, 0x98E9, 0x8960, 0xBBFB, 0xAA72) else
    if row == 6 then Pick(i, 0x6306, 0x728F, 0x4014, 0x519D, 0x2522, 0x34AB, 0x0630, 0x17B9,
        0xEF4E, 0xFEC7, 0xCC5C, 0xDDD5, 0xA96A, 0xB8E3, 0x8A78, 0x9BF1) else
    if row == 7 then Pick(i, 0x7387, 0x620E, 0x5095, 0x411C, 0x35A3, 0x242A, 0x16B1, 0x0738,
        0xFFCF, 0xEE46, 0xDCDD, 0xCD54, 0xB9EB, 0xA862, 0x9AF9, 0x8B70) else
    if row == 8 then Pick(i, 0x8408, 0x9581, 0xA71A, 0xB693, 0xC22C, 0xD3A5, 0xE13E, 0xF0B7,
        0x0840, 0x19C9, 0x2B52, 0x3ADB, 0x4E64, 0x5FED, 0x6D76, 0x7CFF) else
    if row == 9 then Pick(i, 0x9489, 0x8500, 0xB79B, 0xA612, 0xD2AD, 0xC324, 0xF1BF, 0xE036,
        0x18C1, 0x0948, 0x3BD3, 0x2A5A, 0x5EE5, 0x4F6C, 0x7DF7, 0x6C7E) else
    if row == 10 then Pick(i, 0xA50A, 0xB483, 0x8618, 0x9791, 0xE32E, 0xF2A7, 0xC03C, 0xD1B5,
        0x2942, 0x38CB, 0x0A50, 0x1BD9, 0x6F66, 0x7EEF, 0x4C74, 0x5DFD) else
    if row == 11 then Pick(i, 0xB58B, 0xA402, 0x9699, 0x8710, 0xF3AF, 0xE226, 0xD0BD, 0xC134,
        0x39C3, 0x284A, 0x1AD1, 0x0B58, 0x7FE7, 0x6E6E, 0x5CF5, 0x4D7C) else
    if row == 12 then Pick(i, 0xC60C, 0xD785, 0xE51E, 0xF497, 0x8028, 0x91A1, 0xA33A, 0xB2B3,
        0x4A44, 0x5BCD, 0x6956, 0x78DF, 0x0C60, 0x1DE9, 0x2F72, 0x3EFB) else
    if row == 13 then Pick(i, 0xD68D, 0xC704, 0xF59F, 0xE416, 0x90A9, 0x8120, 0xB3BB, 0xA232,
        0x5AC5, 0x4B4C, 0x79D7, 0x685E, 0x1CE1, 0x0D68, 0x3FF3, 0x2E7A) else
    if row == 14 then Pick(i, 0xE70E, 0xF687, 0xC41C, 0xD595, 0xA12A, 0xB0A3, 0x8238, 0x93B1,
        0x6B46, 0x7ACF, 0x4854, 0x59DD, 0x2D62, 0x3CEB, 0x0E70, 0x1FF9) else
    Pick(i, 0xF78F, 0xE606, 0xD49D, 0xC514, 0xB1AB, 0xA022, 0x92B9, 0x8330,
        0x7BC7, 0x6A4E, 0x58D5, 0x495C, 0x3DE3, 0x2C6A, 0x1EF1, 0x0F78)
  }

  // ----- Word operations, named so that the proofs below can treat them abstractly -----

  function Xor(x: bv16, y: bv16): bv16 { x ^ y }

  function Not(x: bv16): bv16 { !x }

  function Wide(b: bv8): bv16 { b as bv16 }

  function Low(r: bv16): bv8 { (r & 0xff) as bv8 }

  function High(r: bv16): bv8 { (r >> 8) as bv8 }

  lemma XorComm(x: bv16, y: bv16)
    ensures Xor(x, y) == Xor(y, x)
  {}

  lemma XorAssoc(x: bv16, y: bv16, z: bv16)
    ensures Xor(Xor(x, y), z) == Xor(x, Xor(y, z))
  {}

  lemma XorSwap(a: bv16, b: bv16, x: bv16, y: bv16)
    ensures Xor(Xor(a, b), Xor(x, y)) == Xor(Xor(a, x), Xor(b, y))
  {
    hide Xor;
    XorAssoc(a, b, Xor(x, y));
    XorAssoc(b, x, y);
    XorComm(b, x);
    XorAssoc(x, b, y);
    XorAssoc(a, x, Xor(b, y));
  }

  // ----- The reference: a register shifted one bit at a time -----

  /** What is xored in when a one is shifted out: the polynomial, reversed. */
  function Feedback(r: bv16): bv16 {
    if r & 1 == 1 then 0x8408 else 0
  }

  function Shift(r: bv16): bv16 {
    Xor(r >> 1, Feedback(r))
  }

  function Shifts(r: bv16, n: nat): bv16
    decreases n
  {
    if n == 0 then r else Shifts(Shift(r), n - 1)
  }

  /** The register after the bytes of `m`, each taken least significant bit first. */
  function Register(r: bv16, m: seq<bv8>): bv16
    decreases |m|
  {
    if m == [] then r else Register(Shifts(Xor(r, Wide(m[0])), 8), m[1..])
  }

  /** The checksum: the register starts and ends complemented. */
  function Checksum(crc: bv16, m: seq<bv8>): bv16 {
    Not(Register(Not(crc), m))
  }

  // ----- The table against the reference -----

  lemma FeedbackLinear(x: bv16, y: bv16)
    ensures Feedback(x ^ y) == Feedback(x) ^ Feedback(y)
  {}

  lemma HalveLinear(x: bv16, y: bv16, a: bv16, b: bv16)
    ensures ((x ^ y) >> 1) ^ (a ^ b) == ((x >> 1) ^ a) ^ ((y >> 1) ^ b)
  {}

  lemma ShiftLinear(x: bv16, y: bv16)
    ensures Shift(Xor(x, y)) == Xor(Shift(x), Shift(y))
  {
    FeedbackLinear(x, y);
    HalveLinear(x, y, Feedback(x), Feedback(y));
  }

  lemma {:induction false} ShiftsLinear(x: bv16, y: bv16, n: nat)
    ensures Shifts(Xor(x, y), n) == Xor(Shifts(x, n), Shifts(y, n))
    decreases n
  {
    hide Xor, Shift;
    if n > 0 {
      ShiftLinear(x, y);
      ShiftsLinear(Shift(x), Shift(y), n - 1);
    }
  }

  /** Eight zero low bits are shifted out without feedback. */
  lemma ShiftsHigh(r: bv16)
    ensures Shifts(r & 0xff00, 8) == r >> 8
  {}

  lemma SplitByte(r: bv16, b: bv8)
    ensures Xor(r, Wide(b)) == Xor(Wide(b ^ Low(r)), r & 0xff00)
  {
    assert r ^ (b as bv16) == ((b ^ ((r & 0xff) as bv8)) as bv16) ^ (r & 0xff00);
  }

  lemma TableRow0(x: bv8) requires x >> 4 == 0 ensures Table(x) == Shifts(Wide(x), 8) {}
  lemma TableRow1(x: bv8) requires x >> 4 == 1 ensures Table(x) == Shifts(Wide(x), 8) {}
  lemma TableRow2(x: bv8) requires x >> 4 == 2 ensures Table(x) == Shifts(Wide(x), 8) {}
  lemma TableRow3(x: bv8) requires x >> 4 == 3 ensures Table(x) == Shifts(Wide(x), 8) {}
  lemma TableRow4(x: bv8) requires x >> 4 == 4 ensures Table(x) == Shifts(Wide(x), 8) {}
  lemma TableRow5(x: bv8) requires x >> 4 == 5 ensures Table(x) == Shifts(Wide(x), 8) {}
  lemma TableRow6(x: bv8) requires x >> 4 == 6 ensures Table(x) == Shifts(Wide(x), 8) {}
  lemma TableRow7(x: bv8) requires x >> 4 == 7 ensures Table(x) == Shifts(Wide(x), 8) {}
  lemma TableRow8(x: bv8) requires x >> 4 == 8 ensures Table(x) == Shifts(Wide(x), 8) {}
  lemma TableRow9(x: bv8) requires x >> 4 == 9 ensures Table(x) == Shifts(Wide(x), 8) {}
  lemma TableRowA(x: bv8) requires x >> 4 == 10 ensures Table(x) == Shifts(Wide(x), 8) {}
  lemma TableRowB(x: bv8) requires x >> 4 == 11 ensures Table(x) == Shifts(Wide(x), 8) {}
  lemma TableRowC(x: bv8) requires x >> 4 == 12 ensures Table(x) == Shifts(Wide(x), 8) {}
  lemma TableRowD(x: bv8) requires x >> 4 == 13 ensures Table(x) == Shifts(Wide(x), 8) {}
  lemma TableRowE(x: bv8) requires x >> 4 == 14 ensures Table(x) == Shifts(Wide(x), 8) {}
  lemma TableRowF(x: bv8) requires x >> 4 == 15 ensures Table(x) == Shifts(Wide(x), 8) {}

  /** Every entry of the table is its index shifted through eight times. */
  lemma TableIsShifts(x: bv8)
    ensures Table(x) == Shifts(Wide(x), 8)
  {
    var row := x >> 4;
    if row == 0 { TableRow0(x); } else if row == 1 { TableRow1(x); } else if row == 2 { TableRow2(x); } else
    if row == 3 { TableRow3(x); } else if row == 4 { TableRow4(x); } else if row == 5 { TableRow5(x); } else
    if row == 6 { TableRow6(x); } else if row == 7 { TableRow7(x); } else if row == 8 { TableRow8(x); } else
    if row == 9 { TableRow9(x); } else if row == 10 { TableRowA(x); } else if row == 11 { TableRowB(x); } else
    if row == 12 { TableRowC(x); } else if row == 13 { TableRowD(x); } else if row == 14 { TableRowE(x); } else
    { TableRowF(x); }
  }

  /** One table step is eight single-bit steps. */
  lemma TableStep(r: bv16, b: bv8)
    ensures Xor(r >> 8, Table(b ^ Low(r))) == Shifts(Xor(r, Wide(b)), 8)
  {
    hide *;
    var x := b ^ Low(r);
    SplitByte(r, b);
    TableIsShifts(x);
    ShiftsLinear(Wide(x), r & 0xff00, 8);
    ShiftsHigh(r);
    XorComm(r >> 8, Table(x));
  }

  /** The loop of crc_ccitt. */
  method CrcCcitt(crc: bv16, data: array<bv8>, size: nat) returns (r: bv16)
    requires size <= data.Length
    ensures r == Checksum(crc, data[..size])
  {
    hide Table, Shifts, Xor, Not, Low, Wide;
    r := Not(crc);
    var i := 0;
    while i < size
      invariant 0 <= i <= size
      invariant Register(Not(crc), data[..size]) == Register(r, data[i..size])
    {
      TableStep(r, data[i]);
      assert data[i..size][1..] == data[i + 1..size];
      r := Xor(r >> 8, Table(data[i] ^ Low(r)));
      i := i + 1;
    }
    r := Not(r);
  }

  /** The static table, by position. */
  function Entry(i: int): bv16
    requires 0 <= i < 256
  {
    Table(i as bv8)
  }

  /** The table generator, compiled when the static table is not: it rebuilds the same 256 entries. */
  method GenCrcTable() returns (table: array<bv16>)
    ensures fresh(table) && table.Length == 256
    ensures forall i :: 0 <= i < 256 ==> table[i] == Entry(i)
  {
    hide Table, Shifts, Entry, Xor, Wide;
    table := new bv16[256];
    for i := 0 to 256
      invariant forall k :: 0 <= k < i ==> table[k] == Entry(k)
    {
      var crc := Wide(i as bv8);
      EntryIsShifts(i);
      for j := 0 to 8
        invariant Entry(i) == Shifts(crc, 8 - j)
        modifies {}
      {
        ShiftsStep(crc, 8 - j);
        if crc & 1 == 1 {
          crc := crc >> 1;
          crc := Xor(crc, 0x8408);
        } else {
          crc := crc >> 1;
        }
      }
      ShiftsNone(crc);
      table[i] := crc;
    }
  }

  lemma EntryIsShifts(i: int)
    requires 0 <= i < 256
    ensures Entry(i) == Shifts(Wide(i as bv8), 8)
  {
    hide Table, Shifts, Wide;
    TableIsShifts(i as bv8);
  }

  lemma ShiftsStep(r: bv16, n: nat)
    requires n > 0
    ensures Shifts(r, n) == Shifts(if r & 1 == 1 then Xor(r >> 1, 0x8408) else r >> 1, n - 1)
  {
    hide Xor;
    XorZero(r >> 1);
  }

  lemma ShiftsNone(r: bv16)
    ensures Shifts(r, 0) == r
  {}

  lemma XorZero(r: bv16)
    ensures Xor(r, 0) == r
  {}

  // ----- Algebra of the checksum -----

  /** Feeding a checksum back in continues it: the two complements cancel. */
  lemma ChecksumConcat(crc: bv16, a: seq<bv8>, b: seq<bv8>)
    ensures Checksum(Checksum(crc, a), b) == Checksum(crc, a + b)
  {
    hide Register, Not;
    RegisterConcat(Not(crc), a, b);
    NotNot(Register(Not(crc), a));
  }

  lemma NotNot(x: bv16)
    ensures Not(Not(x)) == x
  {}

  lemma {:induction false} RegisterConcat(r: bv16, a: seq<bv8>, b: seq<bv8>)
    ensures Register(r, a + b) == Register(Register(r, a), b)
    decreases |a|
  {
    hide Xor, Wide, Shifts;
    if a == [] {
      assert a + b == b;
    } else {
      assert (a + b)[1..] == a[1..] + b;
      RegisterConcat(Shifts(Xor(r, Wide(a[0])), 8), a[1..], b);
    }
  }

  function XorSeq(a: seq<bv8>, b: seq<bv8>): (c: seq<bv8>)
    requires |a| == |b|
    ensures |c| == |a|
  {
    seq(|a|, i requires 0 <= i < |a| => a[i] ^ b[i])
  }

  lemma WideLinear(x: bv8, y: bv8)
    ensures Wide(x ^ y) == Xor(Wide(x), Wide(y))
  {}

  lemma {:induction false} RegisterLinear(r: bv16, s: bv16, a: seq<bv8>, b: seq<bv8>)
    requires |a| == |b|
    ensures Register(Xor(r, s), XorSeq(a, b)) == Xor(Register(r, a), Register(s, b))
    decreases |a|
  {
    hide Xor, Wide, Shifts;
    if a != [] {
      var x, y := Wide(a[0]), Wide(b[0]);
      assert XorSeq(a, b)[1..] == XorSeq(a[1..], b[1..]);
      WideLinear(a[0], b[0]);
      XorSwap(r, s, x, y);
      ShiftsLinear(Xor(r, x), Xor(s, y), 8);
      RegisterLinear(Shifts(Xor(r, x), 8), Shifts(Xor(s, y), 8), a[1..], b[1..]);
    }
  }

  /** The checksum is affine in the message: three of them xor to the checksum of the xor. */
  lemma ChecksumAffine(crc: bv16, a: seq<bv8>, b: seq<bv8>, c: seq<bv8>)
    requires |a| == |b| == |c|
    ensures Xor(Xor(Checksum(crc, a), Checksum(crc, b)), Checksum(crc, c)) == Checksum(crc, XorSeq(XorSeq(a, b), c))
  {
    hide Register, XorSeq, Xor, Not;
    var r := Not(crc);
    RegisterLinear(r, r, a, b);
    RegisterLinear(Xor(r, r), r, XorSeq(a, b), c);
    XorCancel(r);
    ThreeNots(Register(r, a), Register(r, b), Register(r, c));
  }

  lemma XorCancel(x: bv16)
    ensures Xor(Xor(x, x), x) == x
  {}

  lemma ThreeNots(x: bv16, y: bv16, z: bv16)
    ensures Xor(Xor(Not(x), Not(y)), Not(z)) == Not(Xor(Xor(x, y), z))
  {}

  /** Any message followed by its own checksum, low byte first, has the one checksum 0x0F47. */
  lemma ChecksumResidue(m: seq<bv8>)
    ensures var c := Checksum(0, m); Checksum(0, m + [Low(c), High(c)]) == 0x0F47
  {
    hide Shifts, Xor, Wide, Low, High, Not;
    var r := Register(Not(0), m);
    var lo, hi := Low(Not(r)), High(Not(r));
    RegisterConcat(Not(0), m, [lo, hi]);
    assert [lo, hi][1..] == [hi] && [hi][1..] == [];
    var s := Shifts(Xor(r, Wide(lo)), 8);
    assert Register(r, [lo, hi]) == Register(s, [hi]) == Shifts(Xor(s, Wide(hi)), 8);
    LowComplement(r);
    ShiftsLinear(0xff, r & 0xff00, 8);
    ShiftsHigh(r);
    HighComplement(r);
    ResidueEnds();
  }

  lemma LowComplement(r: bv16)
    ensures Xor(r, Wide(Low(Not(r)))) == Xor(0xff, r & 0xff00)
  {}

  lemma HighComplement(r: bv16)
    ensures Xor(Xor(0x0f78, r >> 8), Wide(High(Not(r)))) == 0x0f87
  {}

  lemma ResidueEnds()
    ensures Shifts(0xff, 8) == 0x0f78 && Not(Shifts(0x0f87, 8)) == 0x0F47
  {}

  // ----- Burst errors -----

  /** The bits of a byte, and of a message, in the order the register takes them. */
  function ByteBits(b: bv8): (s: seq<bool>)
    ensures |s| == 8
  {
    [b & 1 == 1, b & 2 == 2, b & 4 == 4, b & 8 == 8, b & 16 == 16, b & 32 == 32, b & 64 == 64, b & 128 == 128]
  }

  function Bits(m: seq<bv8>): (s: seq<bool>)
    ensures |s| == 8 * |m|
  {
    if m == [] then [] else ByteBits(m[0]) + Bits(m[1..])
  }

  function One(b: bool): bv16 {
    if b then 1 else 0
  }

  function BitRegister(r: bv16, s: seq<bool>): bv16
    decreases |s|
  {
    if s == [] then r else BitRegister(Shift(Xor(r, One(s[0]))), s[1..])
  }

  lemma {:induction false} BitRegisterConcat(r: bv16, s: seq<bool>, t: seq<bool>)
    ensures BitRegister(r, s + t) == BitRegister(BitRegister(r, s), t)
    decreases |s|
  {
    hide Shift, Xor, One;
    if s == [] {
      assert s + t == t;
    } else {
      assert (s + t)[1..] == s[1..] + t;
      BitRegisterConcat(Shift(Xor(r, One(s[0]))), s[1..], t);
    }
  }

  /** Up to sixteen bits as a word, first bit least significant. */
  function Pack(s: seq<bool>): bv16
    decreases |s|
  {
    if s == [] then 0 else Push(Pack(s[1..]), s[0])
  }

  function Push(x: bv16, b: bool): bv16 {
    (x << 1) | One(b)
  }

  /** The word of `n` ones. */
  function Ones(n: nat): bv16
    decreases n
  {
    if n == 0 then 0 else Push(Ones(n - 1), true)
  }

  predicate Within(x: bv16, mask: bv16) {
    x & !mask == 0
  }

  lemma OnesTopClear(n: nat)
    requires n <= 15
    ensures Within(Ones(n), 0x7fff)
  {
    assert Ones(0) == 0 && Ones(1) == 1 && Ones(2) == 3 && Ones(3) == 7 && Ones(4) == 15;
    assert Ones(5) == 31 && Ones(6) == 63 && Ones(7) == 127 && Ones(8) == 255 && Ones(9) == 511;
    assert Ones(10) == 1023 && Ones(11) == 2047 && Ones(12) == 4095 && Ones(13) == 8191;
    assert Ones(14) == 16383 && Ones(15) == 32767;
  }

  lemma PushWithin(x: bv16, mask: bv16, b: bool)
    requires Within(x, mask)
    ensures Within(Push(x, b), Push(mask, true))
  {
    hide One;
    OneBit(b);
    WordWithin(x, mask, One(b));
  }

  lemma OneBit(b: bool)
    ensures (One(b) == 0 || One(b) == 1) && One(true) == 1
  {}

  lemma WordWithin(x: bv16, mask: bv16, one: bv16)
    ensures x & !mask == 0 && (one == 0 || one == 1) ==> ((x << 1) | one) & !((mask << 1) | 1) == 0
  {}

  lemma WithinTrans(x: bv16, m: bv16, n: bv16)
    requires Within(x, m) && Within(m, n)
    ensures Within(x, n)
  {}

  lemma {:induction false} PackWithin(s: seq<bool>)
    ensures Within(Pack(s), Ones(|s|))
    decreases |s|
  {
    if s != [] {
      hide Within, Push;
      PackWithin(s[1..]);
      PushWithin(Pack(s[1..]), Ones(|s| - 1), s[0]);
    }
  }

  /** Fewer than sixteen bits leave the top bit of the word clear. */
  lemma PackTopClear(s: seq<bool>)
    requires |s| <= 15
    ensures Within(Pack(s), 0x7fff)
  {
    hide Within, Pack, Ones;
    PackWithin(s);
    OnesTopClear(|s|);
    WithinTrans(Pack(s), Ones(|s|), 0x7fff);
  }

  lemma PushInjective(x: bv16, y: bv16, b: bool, c: bool)
    requires Within(x, 0x7fff) && Within(y, 0x7fff) && Push(x, b) == Push(y, c)
    ensures x == y && b == c
  {}

  lemma {:induction false} PackInjective(s: seq<bool>, t: seq<bool>)
    requires |s| == |t| <= 16 && Pack(s) == Pack(t)
    ensures s == t
    decreases |s|
  {
    if s != [] {
      hide Within, Push;
      PackTopClear(s[1..]);
      PackTopClear(t[1..]);
      PushInjective(Pack(s[1..]), Pack(t[1..]), s[0], t[0]);
      PackInjective(s[1..], t[1..]);
      assert s == [s[0]] + s[1..] && t == [t[0]] + t[1..];
    }
  }

  lemma ShiftPush(x: bv16)
    requires Within(x, 0x7fff)
    ensures Shift(x << 1) == x
  {}

  lemma PushIsXor(x: bv16, b: bool)
    ensures Push(x, b) == Xor(One(b), x << 1)
  {
    if b {
      assert (x << 1) | 1 == 1 ^ (x << 1);
    } else {
      assert (x << 1) | 0 == 0 ^ (x << 1);
    }
  }

  /** Up to sixteen bits can be taken in all at once. */
  lemma {:induction false} BitRegisterPack(r: bv16, s: seq<bool>)
    requires |s| <= 16
    ensures BitRegister(r, s) == Shifts(Xor(r, Pack(s)), |s|)
    decreases |s|
  {
    hide Shift, Xor, One, Push, Within;
    if s == [] {
      XorZero(r);
    } else {
      var x, p := Xor(r, One(s[0])), Pack(s[1..]);
      PackTopClear(s[1..]);
      ShiftPush(p);
      PushIsXor(p, s[0]);
      XorAssoc(r, One(s[0]), p << 1);
      ShiftLinear(x, p << 1);
      BitRegisterPack(Shift(x), s[1..]);
    }
  }

  lemma PackByte(b: bv8)
    ensures Pack(ByteBits(b)) == Wide(b)
  {
    PushByte(b);
    PackEight(ByteBits(b));
  }

  lemma PackEight(s: seq<bool>)
    requires |s| == 8
    ensures Pack(s) == Push(Push(Push(Push(Push(Push(Push(Push(0, s[7]), s[6]), s[5]), s[4]), s[3]), s[2]), s[1]), s[0])
  {
    hide Push;
    PackTwo(s[6..]);
    PackTwo(s[4..]);
    PackTwo(s[2..]);
    PackTwo(s);
    assert s[6..][2..] == [] && s[4..][2..] == s[6..] && s[2..][2..] == s[4..];
  }

  lemma PackTwo(s: seq<bool>)
    requires |s| >= 2
    ensures Pack(s) == Push(Push(Pack(s[2..]), s[1]), s[0])
  {
    hide Push;
    assert s[1..][1..] == s[2..];
  }

  lemma PushByte(b: bv8)
    ensures Push(Push(Push(Push(Push(Push(Push(Push(0, b & 128 == 128), b & 64 == 64), b & 32 == 32),
            b & 16 == 16), b & 8 == 8), b & 4 == 4), b & 2 == 2), b & 1 == 1) == Wide(b)
  {}

  /** The bit-by-bit register over a whole message. */
  lemma {:induction false} RegisterIsBitRegister(r: bv16, m: seq<bv8>)
    ensures Register(r, m) == BitRegister(r, Bits(m))
    decreases |m|
  {
    hide Shift, Xor, Wide, Shifts, Pack, ByteBits;
    if m != [] {
      BitRegisterPack(r, ByteBits(m[0]));
      PackByte(m[0]);
      BitRegisterConcat(r, ByteBits(m[0]), Bits(m[1..]));
      RegisterIsBitRegister(Shifts(Xor(r, Wide(m[0])), 8), m[1..]);
    }
  }

  /** The polynomial's top bit is set, so a shift loses nothing. */
  lemma ShiftInjective(x: bv16, y: bv16)
    requires Shift(x) == Shift(y)
    ensures x == y
  {}

  lemma {:induction false} ShiftsInjective(x: bv16, y: bv16, n: nat)
    requires Shifts(x, n) == Shifts(y, n)
    ensures x == y
    decreases n
  {
    hide Shift;
    if n > 0 {
      ShiftsInjective(Shift(x), Shift(y), n - 1);
      ShiftInjective(x, y);
    }
  }

  lemma XorInjective(x: bv16, y: bv16, z: bv16)
    requires Xor(x, z) == Xor(y, z)
    ensures x == y
  {}

  /** Equal further input never brings two different registers together. */
  lemma {:induction false} BitRegisterInjective(r: bv16, q: bv16, s: seq<bool>)
    requires BitRegister(r, s) == BitRegister(q, s)
    ensures r == q
    decreases |s|
  {
    hide Shift, Xor, One;
    if s != [] {
      var x, y := Xor(r, One(s[0])), Xor(q, One(s[0]));
      BitRegisterInjective(Shift(x), Shift(y), s[1..]);
      ShiftInjective(x, y);
      XorInjective(r, q, One(s[0]));
    }
  }

  /** From one register, sixteen bits of input act injectively. */
  lemma WindowInjective(r: bv16, s: seq<bool>, t: seq<bool>)
    requires |s| == |t| <= 16
    requires BitRegister(r, s) == BitRegister(r, t)
    ensures s == t
  {
    hide Xor, Shifts, Pack, BitRegister;
    BitRegisterPack(r, s);
    BitRegisterPack(r, t);
    ShiftsInjective(Xor(r, Pack(s)), Xor(r, Pack(t)), |s|);
    XorComm(r, Pack(s));
    XorComm(r, Pack(t));
    XorInjective(Pack(s), Pack(t), r);
    PackInjective(s, t);
  }

  lemma ByteBitsInjective(a: bv8, b: bv8)
    requires ByteBits(a) == ByteBits(b)
    ensures a == b
  {
    hide ByteBits;
    PackByte(a);
    PackByte(b);
    WideInjective(a, b);
  }

  lemma WideInjective(a: bv8, b: bv8)
    requires Wide(a) == Wide(b)
    ensures a == b
  {}

  lemma {:induction false} BitsInjective(a: seq<bv8>, b: seq<bv8>)
    requires |a| == |b| && Bits(a) == Bits(b)
    ensures a == b
    decreases |a|
  {
    hide ByteBits;
    if a != [] {
      assert ByteBits(a[0]) == Bits(a)[..8] == Bits(b)[..8] == ByteBits(b[0]);
      assert Bits(a[1..]) == Bits(a)[8..] == Bits(b)[8..] == Bits(b[1..]);
      ByteBitsInjective(a[0], b[0]);
      BitsInjective(a[1..], b[1..]);
      assert a == [a[0]] + a[1..] && b == [b[0]] + b[1..];
    }
  }

  lemma BitRegisterSplit(r: bv16, s: seq<bool>, lo: nat, hi: nat)
    requires lo <= hi <= |s|
    ensures BitRegister(r, s) == BitRegister(BitRegister(BitRegister(r, s[..lo]), s[lo..hi]), s[hi..])
  {
    hide BitRegister;
    assert s == s[..lo] + (s[lo..hi] + s[hi..]);
    BitRegisterConcat(r, s[..lo], s[lo..hi] + s[hi..]);
    BitRegisterConcat(BitRegister(r, s[..lo]), s[lo..hi], s[hi..]);
  }

  lemma BitBurst(r: bv16, s: seq<bool>, t: seq<bool>, lo: nat, hi: nat)
    requires |s| == |t| && lo <= hi <= |s| && hi - lo <= 16
    requires s[..lo] == t[..lo] && s[hi..] == t[hi..]
    requires BitRegister(r, s) == BitRegister(r, t)
    ensures s == t
  {
    hide *;
    BitRegisterSplit(r, s, lo, hi);
    BitRegisterSplit(r, t, lo, hi);
    var q := BitRegister(r, s[..lo]);
    BitRegisterInjective(BitRegister(q, s[lo..hi]), BitRegister(q, t[lo..hi]), s[hi..]);
    WindowInjective(q, s[lo..hi], t[lo..hi]);
    assert s == s[..lo] + s[lo..hi] + s[hi..] && t == t[..lo] + t[lo..hi] + t[hi..];
  }

  lemma ChecksumInjective(crc: bv16, a: seq<bv8>, b: seq<bv8>)
    requires Checksum(crc, a) == Checksum(crc, b)
    ensures BitRegister(Not(crc), Bits(a)) == BitRegister(Not(crc), Bits(b))
  {
    hide Register, BitRegister, Bits, Not;
    var r := Not(crc);
    NotNot(Register(r, a));
    NotNot(Register(r, b));
    RegisterIsBitRegister(r, a);
    RegisterIsBitRegister(r, b);
  }

  /** Every burst of at most sixteen bits is detected: two messages of one length
      that differ, and differ only inside the window of sixteen consecutive bits
      that starts at bit `k`, have different checksums. */
  lemma BurstDetected(crc: bv16, a: seq<bv8>, b: seq<bv8>, k: nat)
    requires |a| == |b| && a != b
    requires forall i :: 0 <= i < 8 * |a| && !(k <= i < k + 16) ==> Bits(a)[i] == Bits(b)[i]
    ensures Checksum(crc, a) != Checksum(crc, b)
  {
    hide *;
    var n := 8 * |a|;
    var lo := if k < n then k else n;
    var hi := if k + 16 < n then k + 16 else n;
    if Checksum(crc, a) == Checksum(crc, b) {
      ChecksumInjective(crc, a, b);
      assert Bits(a)[..lo] == Bits(b)[..lo] && Bits(a)[hi..] == Bits(b)[hi..];
      BitBurst(Not(crc), Bits(a), Bits(b), lo, hi);
      BitsInjective(a, b);
    }
  }

  lemma SeventeenBitsVanish()
    ensures Register(0, [0x11, 0x08, 0x01]) == 0
  {
    var m: seq<bv8> := [0x11, 0x08, 0x01];
    assert m[1..] == [0x08, 0x01] && m[1..][1..] == [0x01] && m[1..][1..][1..] == [];
    assert Xor(0, Wide(0x11)) == 0x0011 && Xor(0x0108, Wide(0x08)) == 0x0100 && Xor(0x0001, Wide(0x01)) == 0;
    assert Shifts(0x0011, 8) == 0x0108;
    assert Shifts(0x0100, 8) == 0x0001;
    assert Shifts(0, 8) == 0;
  }

  lemma BitsThree(x: bv8, y: bv8, z: bv8)
    ensures Bits([x, y, z])[16..] == ByteBits(z)
  {
    hide ByteBits;
    assert [x, y, z][1..] == [y, z] && [y, z][1..] == [z] && [z][1..] == [];
    assert Bits([z]) == ByteBits(z);
    assert Bits([y, z]) == ByteBits(y) + ByteBits(z);
    assert Bits([x, y, z]) == ByteBits(x) + (ByteBits(y) + ByteBits(z));
  }

  /** Sixteen is the limit: these two messages differ only in their first seventeen
      bits and share every checksum. */
  lemma SeventeenBitsCollide(crc: bv16)
    ensures Checksum(crc, [0x00, 0x00, 0x00]) == Checksum(crc, [0x11, 0x08, 0x01])
    ensures forall i :: 17 <= i < 24 ==> Bits([0x00, 0x00, 0x00])[i] == Bits([0x11, 0x08, 0x01])[i]
  {
    hide Xor, Not, Shift, Shifts, Wide;
    var r, a, b: seq<bv8> := Not(crc), [0x00, 0x00, 0x00], [0x11, 0x08, 0x01];
    assert XorSeq(a, b) == b;
    RegisterLinear(r, 0, a, b);
    XorZero(r);
    XorZero(Register(r, a));
    SeventeenBitsVanish();
    BitsThree(0x00, 0x00, 0x00);
    BitsThree(0x11, 0x08, 0x01);
  }

  // ----- A worked example -----

  /** The checksum of the digits 1 to 9 is 0x906e. */
  lemma CheckValue()
    ensures Checksum(0, [0x31, 0x32, 0x33, 0x34, 0x35, 0x36, 0x37, 0x38, 0x39]) == 0x906e
  {
    hide Shifts, Register;
    NineBytes();
    var m: seq<bv8> := [0x31, 0x32, 0x33, 0x34, 0x35, 0x36, 0x37, 0x38, 0x39];
    NextByte(0xffff, m[0..]);
    NextByte(0x2f8d, m[1..]);
    NextByte(0x4d53, m[2..]);
    NextByte(0x634b, m[3..]);
    NextByte(0x8b13, m[4..]);
    NextByte(0x44bf, m[5..]);
    NextByte(0x198d, m[6..]);
    NextByte(0x1ac8, m[7..]);
    NextByte(0xf795, m[8..]);
    assert m[0..] == m && m[9..] == [];
    assert m[0..][1..] == m[1..];
    assert m[1..][1..] == m[2..];
    assert m[2..][1..] == m[3..];
    assert m[3..][1..] == m[4..];
    assert m[4..][1..] == m[5..];
    assert m[5..][1..] == m[6..];
    assert m[6..][1..] == m[7..];
    assert m[7..][1..] == m[8..];
    assert m[8..][1..] == [];
    NoBytes(0x6f91);
  }

  lemma NextByte(r: bv16, m: seq<bv8>)
    requires m != []
    ensures Register(r, m) == Register(Shifts(Xor(r, Wide(m[0])), 8), m[1..])
  {}

  lemma NoBytes(r: bv16)
    ensures Register(r, []) == r
  {}

  lemma EightShifts(r: bv16)
    ensures Shifts(r, 8) == Shift(Shift(Shift(Shift(Shift(Shift(Shift(Shift(r))))))))
  {
    hide Shift;
  }

  lemma NineBytes()
    ensures Shifts(Xor(0xffff, Wide(0x31)), 8) == 0x2f8d
    ensures Shifts(Xor(0x2f8d, Wide(0x32)), 8) == 0x4d53
    ensures Shifts(Xor(0x4d53, Wide(0x33)), 8) == 0x634b
    ensures Shifts(Xor(0x634b, Wide(0x34)), 8) == 0x8b13
    ensures Shifts(Xor(0x8b13, Wide(0x35)), 8) == 0x44bf
    ensures Shifts(Xor(0x44bf, Wide(0x36)), 8) == 0x198d
    ensures Shifts(Xor(0x198d, Wide(0x37)), 8) == 0x1ac8
    ensures Shifts(Xor(0x1ac8, Wide(0x38)), 8) == 0xf795
    ensures Shifts(Xor(0xf795, Wide(0x39)), 8) == 0x6f91
  {
    hide Shifts;
    EightShifts(Xor(0xffff, Wide(0x31)));
    EightShifts(Xor(0x2f8d, Wide(0x32)));
    EightShifts(Xor(0x4d53, Wide(0x33)));
    EightShifts(Xor(0x634b, Wide(0x34)));
    EightShifts(Xor(0x8b13, Wide(0x35)));
    EightShifts(Xor(0x44bf, Wide(0x36)));
    EightShifts(Xor(0x198d, Wide(0x37)));
    EightShifts(Xor(0x1ac8, Wide(0x38)));
    EightShifts(Xor(0xf795, Wide(0x39)));
  }
}
