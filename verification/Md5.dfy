/** The MD5 message digest of md5c.c, against RFC 1321.
    A word is 32 bits wide, as the comment at global.h:23 asks. */
module Md5 {

  import opened Ez8
  import opened Text

  const WORD := 0x1_0000_0000
  type Word = n: nat | n < WORD

  const S11: nat := 7
  const S12: nat := 12
  const S13: nat := 17
  const S14: nat := 22
  const S21: nat := 5
  const S22: nat := 9
  const S23: nat := 14
  const S24: nat := 20
  const S31: nat := 4
  const S32: nat := 11
  const S33: nat := 16
  const S34: nat := 23
  const S41: nat := 6
  const S42: nat := 10
  const S43: nat := 15
  const S44: nat := 21

  // ----- RFC 1321 section 3.4: sixty-four operations on four registers -----

  function Add(x: Word, y: Word): Word {
    (x + y) % WORD
  }

  function F(x: Word, y: Word, z: Word): Word {
    ((x as bv32 & y as bv32) | (!(x as bv32) & z as bv32)) as Word
  }

  function G(x: Word, y: Word, z: Word): Word {
    ((x as bv32 & z as bv32) | (y as bv32 & !(z as bv32))) as Word
  }

  function H(x: Word, y: Word, z: Word): Word {
    (x as bv32 ^ y as bv32 ^ z as bv32) as Word
  }

  function I(x: Word, y: Word, z: Word): Word {
    (y as bv32 ^ (x as bv32 | !(z as bv32))) as Word
  }

  function Shifted(b: bv32, n: nat): bv32
    requires 0 < n < 32
  {
    (b << n) | (b >> (32 - n))
  }

  function RotateLeft(x: Word, n: nat): Word
    requires 0 < n < 32
  {
    Shifted(x as bv32, n) as Word
  }

  datatype Registers = Registers(a: Word, b: Word, c: Word, d: Word)

  /** The function, message word, rotation and constant of operation `i`. */
  function Mix(round: nat, x: Word, y: Word, z: Word): Word {
    match round
    case 0 => F(x, y, z)
    case 1 => G(x, y, z)
    case 2 => H(x, y, z)
    case _ => I(x, y, z)
  }

  function Row1(i: nat): (entry: (nat, nat, Word))
    ensures entry.0 < 16 && 0 < entry.1 < 32
  {
    match i
    case 0 => (0, 7, 0xd76aa478)
    case 1 => (1, 12, 0xe8c7b756)
    case 2 => (2, 17, 0x242070db)
    case 3 => (3, 22, 0xc1bdceee)
    case 4 => (4, 7, 0xf57c0faf)
    case 5 => (5, 12, 0x4787c62a)
    case 6 => (6, 17, 0xa8304613)
    case 7 => (7, 22, 0xfd469501)
    case 8 => (8, 7, 0x698098d8)
    case 9 => (9, 12, 0x8b44f7af)
    case 10 => (10, 17, 0xffff5bb1)
    case 11 => (11, 22, 0x895cd7be)
    case 12 => (12, 7, 0x6b901122)
    case 13 => (13, 12, 0xfd987193)
    case 14 => (14, 17, 0xa679438e)
    case _ => (15, 22, 0x49b40821)
  }

  function Row2(i: nat): (entry: (nat, nat, Word))
    ensures entry.0 < 16 && 0 < entry.1 < 32
  {
    match i
    case 0 => (1, 5, 0xf61e2562)
    case 1 => (6, 9, 0xc040b340)
    case 2 => (11, 14, 0x265e5a51)
    case 3 => (0, 20, 0xe9b6c7aa)
    case 4 => (5, 5, 0xd62f105d)
    case 5 => (10, 9, 0x2441453)
    case 6 => (15, 14, 0xd8a1e681)
    case 7 => (4, 20, 0xe7d3fbc8)
    case 8 => (9, 5, 0x21e1cde6)
    case 9 => (14, 9, 0xc33707d6)
    case 10 => (3, 14, 0xf4d50d87)
    case 11 => (8, 20, 0x455a14ed)
    case 12 => (13, 5, 0xa9e3e905)
    case 13 => (2, 9, 0xfcefa3f8)
    case 14 => (7, 14, 0x676f02d9)
    case _ => (12, 20, 0x8d2a4c8a)
  }

  function Row3(i: nat): (entry: (nat, nat, Word))
    ensures entry.0 < 16 && 0 < entry.1 < 32
  {
    match i
    case 0 => (5, 4, 0xfffa3942)
    case 1 => (8, 11, 0x8771f681)
    case 2 => (11, 16, 0x6d9d6122)
    case 3 => (14, 23, 0xfde5380c)
    case 4 => (1, 4, 0xa4beea44)
    case 5 => (4, 11, 0x4bdecfa9)
    case 6 => (7, 16, 0xf6bb4b60)
    case 7 => (10, 23, 0xbebfbc70)
    case 8 => (13, 4, 0x289b7ec6)
    case 9 => (0, 11, 0xeaa127fa)
    case 10 => (3, 16, 0xd4ef3085)
    case 11 => (6, 23, 0x4881d05)
    case 12 => (9, 4, 0xd9d4d039)
    case 13 => (12, 11, 0xe6db99e5)
    case 14 => (15, 16, 0x1fa27cf8)
    case _ => (2, 23, 0xc4ac5665)
  }

  function Row4(i: nat): (entry: (nat, nat, Word))
    ensures entry.0 < 16 && 0 < entry.1 < 32
  {
    match i
    case 0 => (0, 6, 0xf4292244)
    case 1 => (7, 10, 0x432aff97)
    case 2 => (14, 15, 0xab9423a7)
    case 3 => (5, 21, 0xfc93a039)
    case 4 => (12, 6, 0x655b59c3)
    case 5 => (3, 10, 0x8f0ccc92)
    case 6 => (10, 15, 0xffeff47d)
    case 7 => (1, 21, 0x85845dd1)
    case 8 => (8, 6, 0x6fa87e4f)
    case 9 => (15, 10, 0xfe2ce6e0)
    case 10 => (6, 15, 0xa3014314)
    case 11 => (13, 21, 0x4e0811a1)
    case 12 => (4, 6, 0xf7537e82)
    case 13 => (11, 10, 0xbd3af235)
    case 14 => (2, 15, 0x2ad7d2bb)
    case _ => (9, 21, 0xeb86d391)
  }

  function Schedule(i: nat): (entry: (nat, nat, Word))
    ensures entry.0 < 16 && 0 < entry.1 < 32
  {
    if i < 16 then Row1(i) else if i < 32 then Row2(i - 16) else if i < 48 then Row3(i - 32) else Row4(i - 48)
  }

  /** a := b + ((a + f(b, c, d) + X[k] + T[i]) <<< s) */
  function Turn(round: nat, a: Word, b: Word, c: Word, d: Word, x: Word, s: nat, ac: Word): Word
    requires 0 < s < 32
  {
    Add(RotateLeft(Add(Add(Add(a, Mix(round, b, c, d)), x), ac), s), b)
  }

  /** One operation, after which the registers rotate. */
  function Operation(q: Registers, x: seq<Word>, i: nat): Registers
    requires |x| == 16 && i < 64
  {
    var (k, s, ac) := Schedule(i);
    Registers(q.d, Turn(i / 16, q.a, q.b, q.c, q.d, x[k], s, ac), q.b, q.c)
  }

  function Operations(q: Registers, x: seq<Word>, i: nat, n: nat): Registers
    requires |x| == 16 && i <= n <= 64
    decreases n - i
  {
    if i == n then q else Operations(Operation(q, x, i), x, i + 1, n)
  }

  function Transform(q: Registers, block: seq<Byte>): Registers
    requires |block| == 64
  {
    var n := Operations(q, Decoded(block), 0, 64);
    Registers(Add(q.a, n.a), Add(q.b, n.b), Add(q.c, n.c), Add(q.d, n.d))
  }

  // ----- Words and bytes, low-order byte first -----

  function Little(n: nat, count: nat): (bs: seq<Byte>)
    ensures |bs| == count
    decreases count
  {
    if count == 0 then [] else [ByteOf(n % 256)] + Little(n / 256, count - 1)
  }

  function Encoded(words: seq<Word>): (bs: seq<Byte>)
    ensures |bs| == 4 * |words|
  {
    if words == [] then [] else Little(words[0], 4) + Encoded(words[1..])
  }

  function WordOf(bs: seq<Byte>): Word
    requires |bs| == 4
  {
    NatOf(bs[0]) + 0x100 * NatOf(bs[1]) + 0x1_0000 * NatOf(bs[2]) + 0x100_0000 * NatOf(bs[3])
  }

  function Decoded(bs: seq<Byte>): (words: seq<Word>)
    requires |bs| % 4 == 0
    ensures |words| == |bs| / 4
  {
    if bs == [] then [] else [WordOf(bs[..4])] + Decoded(bs[4..])
  }

  // ----- The code's transformation -----

  function FF(a: Word, b: Word, c: Word, d: Word, x: Word, s: nat, ac: Word): (r: Word)
    requires 0 < s < 32
    ensures r == Turn(0, a, b, c, d, x, s, ac)
  {
    Add(RotateLeft(Add(Add(Add(a, F(b, c, d)), x), ac), s), b)
  }

  function GG(a: Word, b: Word, c: Word, d: Word, x: Word, s: nat, ac: Word): (r: Word)
    requires 0 < s < 32
    ensures r == Turn(1, a, b, c, d, x, s, ac)
  {
    Add(RotateLeft(Add(Add(Add(a, G(b, c, d)), x), ac), s), b)
  }

  function HH(a: Word, b: Word, c: Word, d: Word, x: Word, s: nat, ac: Word): (r: Word)
    requires 0 < s < 32
    ensures r == Turn(2, a, b, c, d, x, s, ac)
  {
    Add(RotateLeft(Add(Add(Add(a, H(b, c, d)), x), ac), s), b)
  }

  function II(a: Word, b: Word, c: Word, d: Word, x: Word, s: nat, ac: Word): (r: Word)
    requires 0 < s < 32
    ensures r == Turn(3, a, b, c, d, x, s, ac)
  {
    Add(RotateLeft(Add(Add(Add(a, I(b, c, d)), x), ac), s), b)
  }

  lemma NextOperation(q: Registers, x: seq<Word>, i: nat, n: nat)
    requires |x| == 16 && i < n <= 64
    ensures var (k, s, ac) := Schedule(i);
      Operations(q, x, i, n) ==
      Operations(Registers(q.d, Turn(i / 16, q.a, q.b, q.c, q.d, x[k], s, ac), q.b, q.c), x, i + 1, n)
  {
    hide Schedule, Turn;
  }

  lemma OperationsEnd(q: Registers, x: seq<Word>, n: nat)
    requires |x| == 16 && n <= 64
    ensures Operations(q, x, n, n) == q
  {}

  method Round1(q: Registers, x: seq<Word>) returns (n: Registers)
    requires |x| == 16
    ensures n == Operations(q, x, 0, 16)
  {
    hide FF, GG, HH, II, Turn, Operations;
    var (a, b, c, d) := (q.a, q.b, q.c, q.d);
    NextOperation(Registers(a, b, c, d), x, 0, 16);
    a := FF(a, b, c, d, x[0], S11, 0xd76aa478);
    NextOperation(Registers(d, a, b, c), x, 1, 16);
    d := FF(d, a, b, c, x[1], S12, 0xe8c7b756);
    NextOperation(Registers(c, d, a, b), x, 2, 16);
    c := FF(c, d, a, b, x[2], S13, 0x242070db);
    NextOperation(Registers(b, c, d, a), x, 3, 16);
    b := FF(b, c, d, a, x[3], S14, 0xc1bdceee);
    NextOperation(Registers(a, b, c, d), x, 4, 16);
    a := FF(a, b, c, d, x[4], S11, 0xf57c0faf);
    NextOperation(Registers(d, a, b, c), x, 5, 16);
    d := FF(d, a, b, c, x[5], S12, 0x4787c62a);
    NextOperation(Registers(c, d, a, b), x, 6, 16);
    c := FF(c, d, a, b, x[6], S13, 0xa8304613);
    NextOperation(Registers(b, c, d, a), x, 7, 16);
    b := FF(b, c, d, a, x[7], S14, 0xfd469501);
    NextOperation(Registers(a, b, c, d), x, 8, 16);
    a := FF(a, b, c, d, x[8], S11, 0x698098d8);
    NextOperation(Registers(d, a, b, c), x, 9, 16);
    d := FF(d, a, b, c, x[9], S12, 0x8b44f7af);
    NextOperation(Registers(c, d, a, b), x, 10, 16);
    c := FF(c, d, a, b, x[10], S13, 0xffff5bb1);
    NextOperation(Registers(b, c, d, a), x, 11, 16);
    b := FF(b, c, d, a, x[11], S14, 0x895cd7be);
    NextOperation(Registers(a, b, c, d), x, 12, 16);
    a := FF(a, b, c, d, x[12], S11, 0x6b901122);
    NextOperation(Registers(d, a, b, c), x, 13, 16);
    d := FF(d, a, b, c, x[13], S12, 0xfd987193);
    NextOperation(Registers(c, d, a, b), x, 14, 16);
    c := FF(c, d, a, b, x[14], S13, 0xa679438e);
    NextOperation(Registers(b, c, d, a), x, 15, 16);
    b := FF(b, c, d, a, x[15], S14, 0x49b40821);
    OperationsEnd(Registers(a, b, c, d), x, 16);
    n := Registers(a, b, c, d);
  }

  method Round2(q: Registers, x: seq<Word>) returns (n: Registers)
    requires |x| == 16
    ensures n == Operations(q, x, 16, 32)
  {
    hide FF, GG, HH, II, Turn, Operations;
    var (a, b, c, d) := (q.a, q.b, q.c, q.d);
    NextOperation(Registers(a, b, c, d), x, 16, 32);
    a := GG(a, b, c, d, x[1], S21, 0xf61e2562);
    NextOperation(Registers(d, a, b, c), x, 17, 32);
    d := GG(d, a, b, c, x[6], S22, 0xc040b340);
    NextOperation(Registers(c, d, a, b), x, 18, 32);
    c := GG(c, d, a, b, x[11], S23, 0x265e5a51);
    NextOperation(Registers(b, c, d, a), x, 19, 32);
    b := GG(b, c, d, a, x[0], S24, 0xe9b6c7aa);
    NextOperation(Registers(a, b, c, d), x, 20, 32);
    a := GG(a, b, c, d, x[5], S21, 0xd62f105d);
    NextOperation(Registers(d, a, b, c), x, 21, 32);
    d := GG(d, a, b, c, x[10], S22, 0x2441453);
    NextOperation(Registers(c, d, a, b), x, 22, 32);
    c := GG(c, d, a, b, x[15], S23, 0xd8a1e681);
    NextOperation(Registers(b, c, d, a), x, 23, 32);
    b := GG(b, c, d, a, x[4], S24, 0xe7d3fbc8);
    NextOperation(Registers(a, b, c, d), x, 24, 32);
    a := GG(a, b, c, d, x[9], S21, 0x21e1cde6);
    NextOperation(Registers(d, a, b, c), x, 25, 32);
    d := GG(d, a, b, c, x[14], S22, 0xc33707d6);
    NextOperation(Registers(c, d, a, b), x, 26, 32);
    c := GG(c, d, a, b, x[3], S23, 0xf4d50d87);
    NextOperation(Registers(b, c, d, a), x, 27, 32);
    b := GG(b, c, d, a, x[8], S24, 0x455a14ed);
    NextOperation(Registers(a, b, c, d), x, 28, 32);
    a := GG(a, b, c, d, x[13], S21, 0xa9e3e905);
    NextOperation(Registers(d, a, b, c), x, 29, 32);
    d := GG(d, a, b, c, x[2], S22, 0xfcefa3f8);
    NextOperation(Registers(c, d, a, b), x, 30, 32);
    c := GG(c, d, a, b, x[7], S23, 0x676f02d9);
    NextOperation(Registers(b, c, d, a), x, 31, 32);
    b := GG(b, c, d, a, x[12], S24, 0x8d2a4c8a);
    OperationsEnd(Registers(a, b, c, d), x, 32);
    n := Registers(a, b, c, d);
  }

  method Round3(q: Registers, x: seq<Word>) returns (n: Registers)
    requires |x| == 16
    ensures n == Operations(q, x, 32, 48)
  {
    hide FF, GG, HH, II, Turn, Operations;
    var (a, b, c, d) := (q.a, q.b, q.c, q.d);
    NextOperation(Registers(a, b, c, d), x, 32, 48);
    a := HH(a, b, c, d, x[5], S31, 0xfffa3942);
    NextOperation(Registers(d, a, b, c), x, 33, 48);
    d := HH(d, a, b, c, x[8], S32, 0x8771f681);
    NextOperation(Registers(c, d, a, b), x, 34, 48);
    c := HH(c, d, a, b, x[11], S33, 0x6d9d6122);
    NextOperation(Registers(b, c, d, a), x, 35, 48);
    b := HH(b, c, d, a, x[14], S34, 0xfde5380c);
    NextOperation(Registers(a, b, c, d), x, 36, 48);
    a := HH(a, b, c, d, x[1], S31, 0xa4beea44);
    NextOperation(Registers(d, a, b, c), x, 37, 48);
    d := HH(d, a, b, c, x[4], S32, 0x4bdecfa9);
    NextOperation(Registers(c, d, a, b), x, 38, 48);
    c := HH(c, d, a, b, x[7], S33, 0xf6bb4b60);
    NextOperation(Registers(b, c, d, a), x, 39, 48);
    b := HH(b, c, d, a, x[10], S34, 0xbebfbc70);
    NextOperation(Registers(a, b, c, d), x, 40, 48);
    a := HH(a, b, c, d, x[13], S31, 0x289b7ec6);
    NextOperation(Registers(d, a, b, c), x, 41, 48);
    d := HH(d, a, b, c, x[0], S32, 0xeaa127fa);
    NextOperation(Registers(c, d, a, b), x, 42, 48);
    c := HH(c, d, a, b, x[3], S33, 0xd4ef3085);
    NextOperation(Registers(b, c, d, a), x, 43, 48);
    b := HH(b, c, d, a, x[6], S34, 0x4881d05);
    NextOperation(Registers(a, b, c, d), x, 44, 48);
    a := HH(a, b, c, d, x[9], S31, 0xd9d4d039);
    NextOperation(Registers(d, a, b, c), x, 45, 48);
    d := HH(d, a, b, c, x[12], S32, 0xe6db99e5);
    NextOperation(Registers(c, d, a, b), x, 46, 48);
    c := HH(c, d, a, b, x[15], S33, 0x1fa27cf8);
    NextOperation(Registers(b, c, d, a), x, 47, 48);
    b := HH(b, c, d, a, x[2], S34, 0xc4ac5665);
    OperationsEnd(Registers(a, b, c, d), x, 48);
    n := Registers(a, b, c, d);
  }

  method Round4(q: Registers, x: seq<Word>) returns (n: Registers)
    requires |x| == 16
    ensures n == Operations(q, x, 48, 64)
  {
    hide FF, GG, HH, II, Turn, Operations;
    var (a, b, c, d) := (q.a, q.b, q.c, q.d);
    NextOperation(Registers(a, b, c, d), x, 48, 64);
    a := II(a, b, c, d, x[0], S41, 0xf4292244);
    NextOperation(Registers(d, a, b, c), x, 49, 64);
    d := II(d, a, b, c, x[7], S42, 0x432aff97);
    NextOperation(Registers(c, d, a, b), x, 50, 64);
    c := II(c, d, a, b, x[14], S43, 0xab9423a7);
    NextOperation(Registers(b, c, d, a), x, 51, 64);
    b := II(b, c, d, a, x[5], S44, 0xfc93a039);
    NextOperation(Registers(a, b, c, d), x, 52, 64);
    a := II(a, b, c, d, x[12], S41, 0x655b59c3);
    NextOperation(Registers(d, a, b, c), x, 53, 64);
    d := II(d, a, b, c, x[3], S42, 0x8f0ccc92);
    NextOperation(Registers(c, d, a, b), x, 54, 64);
    c := II(c, d, a, b, x[10], S43, 0xffeff47d);
    NextOperation(Registers(b, c, d, a), x, 55, 64);
    b := II(b, c, d, a, x[1], S44, 0x85845dd1);
    NextOperation(Registers(a, b, c, d), x, 56, 64);
    a := II(a, b, c, d, x[8], S41, 0x6fa87e4f);
    NextOperation(Registers(d, a, b, c), x, 57, 64);
    d := II(d, a, b, c, x[15], S42, 0xfe2ce6e0);
    NextOperation(Registers(c, d, a, b), x, 58, 64);
    c := II(c, d, a, b, x[6], S43, 0xa3014314);
    NextOperation(Registers(b, c, d, a), x, 59, 64);
    b := II(b, c, d, a, x[13], S44, 0x4e0811a1);
    NextOperation(Registers(a, b, c, d), x, 60, 64);
    a := II(a, b, c, d, x[4], S41, 0xf7537e82);
    NextOperation(Registers(d, a, b, c), x, 61, 64);
    d := II(d, a, b, c, x[11], S42, 0xbd3af235);
    NextOperation(Registers(c, d, a, b), x, 62, 64);
    c := II(c, d, a, b, x[2], S43, 0x2ad7d2bb);
    NextOperation(Registers(b, c, d, a), x, 63, 64);
    b := II(b, c, d, a, x[9], S44, 0xeb86d391);
    OperationsEnd(Registers(a, b, c, d), x, 64);
    n := Registers(a, b, c, d);
  }

  /** Rounds 2 to 4 take the sixteen message words in steps of 5, 3 and 7. */
  lemma ScheduleWords(i: nat)
    requires i < 16
    ensures Row1(i).0 == i && Row2(i).0 == (5 * i + 1) % 16 && Row3(i).0 == (3 * i + 5) % 16 && Row4(i).0 == 7 * i % 16
  {}

  // ----- Encode and Decode -----

  method Encode(input: seq<Word>) returns (output: seq<Byte>)
    ensures output == Encoded(input)
  {
    hide ByteOf, Little;
    output := [];
    var rest := input;
    while rest != []
      invariant output + Encoded(rest) == Encoded(input)
      decreases |rest|
    {
      var w := rest[0];
      LittleWord(w);
      var bs := [ByteOf(w % 0x100), ByteOf(w / 0x100 % 0x100),
                 ByteOf(w / 0x1_0000 % 0x100), ByteOf(w / 0x100_0000 % 0x100)];
      assert output + Encoded(rest) == output + bs + Encoded(rest[1..]);
      output := output + bs;
      rest := rest[1..];
    }
  }

  lemma LittleStep(n: nat, count: nat)
    ensures Little(n, count + 1) == [ByteOf(n % 0x100)] + Little(n / 0x100, count)
  {}

  lemma Quarters(w: nat)
    ensures w / 0x100 / 0x100 == w / 0x1_0000 && w / 0x1_0000 / 0x100 == w / 0x100_0000
  {}

  lemma LittleWord(w: nat)
    ensures Little(w, 4) ==
      [ByteOf(w % 0x100), ByteOf(w / 0x100 % 0x100), ByteOf(w / 0x1_0000 % 0x100), ByteOf(w / 0x100_0000 % 0x100)]
  {
    hide ByteOf, Little;
    Quarters(w);
    LittleStep(w, 3);
    LittleStep(w / 0x100, 2);
    LittleStep(w / 0x1_0000, 1);
    LittleStep(w / 0x100_0000, 0);
    assert Little(w / 0x100_0000 / 0x100, 0) == [];
  }

  method Decode(input: seq<Byte>) returns (output: seq<Word>)
    requires |input| % 4 == 0
    ensures output == Decoded(input)
  {
    hide NatOf, WordOf;
    output := [];
    var rest := input;
    while rest != []
      invariant |rest| % 4 == 0 && output + Decoded(rest) == Decoded(input)
      decreases |rest|
    {
      output := output + [WordOf(rest[..4])];
      rest := rest[4..];
    }
  }

  lemma {:induction false} DecodeEncoded(words: seq<Word>)
    ensures Decoded(Encoded(words)) == words
    decreases |words|
  {
    hide Little, WordOf;
    if words != [] {
      var first := Little(words[0], 4);
      var bs := Encoded(words);
      assert bs[..4] == first && bs[4..] == Encoded(words[1..]);
      WordOfLittle(words[0]);
      DecodeEncoded(words[1..]);
    }
  }

  lemma WordOfLittle(w: Word)
    ensures WordOf(Little(w, 4)) == w
  {
    hide ByteOf, NatOf, Little;
    LittleWord(w);
    NatOfByteOf(w % 0x100);
    NatOfByteOf(w / 0x100 % 0x100);
    NatOfByteOf(w / 0x1_0000 % 0x100);
    NatOfByteOf(w / 0x100_0000 % 0x100);
    FourBytes(w);
  }

  lemma FourBytes(w: Word)
    ensures w == w % 0x100 + 0x100 * (w / 0x100 % 0x100) +
      0x1_0000 * (w / 0x1_0000 % 0x100) + 0x100_0000 * (w / 0x100_0000 % 0x100)
  {}

  method MD5Transform(state: seq<Word>, block: seq<Byte>) returns (updated: seq<Word>)
    requires |state| == 4 && |block| == 64
    ensures updated == Words(Transform(Registers(state[0], state[1], state[2], state[3]), block))
  {
    hide Add, Operations;
    var x := Decode(block);
    var q := Registers(state[0], state[1], state[2], state[3]);
    var n := Round1(q, x);
    n := Round2(n, x);
    n := Round3(n, x);
    n := Round4(n, x);
    OperationsSplit(q, x, 0, 16, 64);
    OperationsSplit(Operations(q, x, 0, 16), x, 16, 32, 64);
    OperationsSplit(Operations(Operations(q, x, 0, 16), x, 16, 32), x, 32, 48, 64);
    updated := [Add(state[0], n.a), Add(state[1], n.b), Add(state[2], n.c), Add(state[3], n.d)];
  }

  lemma {:induction false} OperationsSplit(q: Registers, x: seq<Word>, i: nat, m: nat, n: nat)
    requires |x| == 16 && i <= m <= n <= 64
    ensures Operations(q, x, i, n) == Operations(Operations(q, x, i, m), x, m, n)
    decreases m - i
  {
    hide Operation;
    if i < m {
      OperationsSplit(Operation(q, x, i), x, i + 1, m, n);
    }
  }

  // ----- RFC 1321 sections 3.1 to 3.5 -----

  function Words(q: Registers): (words: seq<Word>)
    ensures |words| == 4
  {
    [q.a, q.b, q.c, q.d]
  }

  /** Section 3.3. */
  const INITIAL := Registers(0x67452301, 0xefcdab89, 0x98badcfe, 0x10325476)

  /** How many of `n` bytes are left over when whole blocks are taken. */
  function Left(n: nat): (left: nat)
    ensures left < 64 && left <= n
  {
    n % 64
  }

  lemma Remainder(n: nat, full: nat)
    ensures full <= n && n - full == Left(n) ==> Left(full) == 0
    ensures Left(full) == 0 && full <= n < full + 64 ==> Left(n) == n - full
    ensures Left(full) == 0 ==> Left(full + 64) == 0
  {}

  /** Section 3.4: the message is taken in blocks of sixteen words; a part of a block is left. */
  function Absorb(q: Registers, m: seq<Byte>): Registers
    decreases |m|
  {
    if |m| < 64 then q else Absorb(Transform(q, m[..64]), m[64..])
  }

  /** Section 3.1: a single 1 bit, then 0 bits up to 56 bytes modulo 64. */
  function Padding(length: nat): (p: seq<Byte>)
    ensures 0 < |p| <= 64 && (length + |p|) % 64 == 56
    ensures p[0] == 0x80 && forall k :: 0 < k < |p| ==> p[k] == 0
  {
    [0x80] + seq((119 - length % 64) % 64, _ => 0x00)
  }

  /** Section 3.2: the low-order 64 bits of the length in bits. */
  function Padded(m: seq<Byte>): seq<Byte> {
    m + Padding(|m|) + Little(8 * |m|, 8)
  }

  lemma PaddedFillsBlocks(m: seq<Byte>)
    ensures |Padded(m)| % 64 == 0
  {
    hide Padding, Little;
    var n := |m| + |Padding(|m|)|;
    assert n % 64 == 56;
    assert |Padded(m)| == n + 8;
  }

  /** Section 3.5. */
  function Digest(m: seq<Byte>): (d: seq<Byte>)
    ensures |d| == 16
  {
    Encoded(Words(Absorb(INITIAL, Padded(m))))
  }

  lemma {:induction false} AbsorbConcat(q: Registers, a: seq<Byte>, b: seq<Byte>)
    requires |a| % 64 == 0
    ensures Absorb(q, a + b) == Absorb(Absorb(q, a), b)
    decreases |a|
  {
    hide Transform;
    if a == [] {
      assert a + b == b;
    } else {
      assert (a + b)[..64] == a[..64] && (a + b)[64..] == a[64..] + b;
      AbsorbConcat(Transform(q, a[..64]), a[64..], b);
    }
  }

  lemma AbsorbTail(q: Registers, m: seq<Byte>, n: nat)
    requires Left(n) == 0 && n <= |m| < n + 64
    ensures Absorb(q, m[..n]) == Absorb(q, m)
  {
    hide Transform;
    assert m == m[..n] + m[n..];
    AbsorbConcat(q, m[..n], m[n..]);
  }

  /** Too little to complete a block. */
  lemma AbsorbShort(q: Registers, m: seq<Byte>, more: seq<Byte>)
    requires m <= more && Left(|m|) + |more| - |m| < 64
    ensures Absorb(q, more) == Absorb(q, m)
  {
    hide Absorb, Left;
    var full := |m| - Left(|m|);
    Remainder(|m|, full);
    AbsorbTail(q, m, full);
    AbsorbTail(q, more, full);
    assert more[..full] == m[..full];
  }

  /** One more block. */
  lemma AbsorbBlock(q: Registers, m: seq<Byte>, n: nat)
    requires Left(n) == 0 && n + 64 <= |m|
    ensures Absorb(q, m[..n + 64]) == Transform(Absorb(q, m[..n]), m[n..n + 64])
  {
    hide Transform;
    var block := m[n..n + 64];
    assert m[..n + 64] == m[..n] + block;
    AbsorbConcat(q, m[..n], block);
    assert block[..64] == block;
  }

  // ----- The bit count, in two words -----

  predicate Counted(count: seq<Word>, length: nat) {
    |count| == 2 && count[0] + WORD * count[1] == 8 * length % (WORD * WORD)
  }

  /** Adding to the two words with a carry adds modulo 2^64. */
  lemma CountCarries(c0: Word, c1: Word, length: nat, low: nat, high: nat)
    requires length < WORD && low == (c0 + 8 * length % WORD) % WORD
    requires high == ((if low < 8 * length % WORD then (c1 + 1) % WORD else c1) + length / 0x2000_0000) % WORD
    ensures low + WORD * high == (c0 + WORD * c1 + 8 * length) % (WORD * WORD)
  {
    var bits, top := 8 * length % WORD, length / 0x2000_0000;
    LowWord(c0, bits);
    var carry := if low < bits then 1 else 0;
    HighWord(c1, carry, top);
    var wrapped := (c1 + carry + top) / WORD;
    assert 8 * length == bits + WORD * top;
    Wrapped(c0 + WORD * c1 + 8 * length, low, high, wrapped);
  }

  lemma LowWord(c: Word, bits: Word)
    ensures var low := (c + bits) % WORD;
      c + bits == low + WORD * (if low < bits then 1 else 0)
  {}

  lemma HighWord(c: Word, carry: nat, top: nat)
    ensures ((c + carry) % WORD + top) % WORD == c + carry + top - WORD * ((c + carry + top) / WORD)
  {}

  lemma Wrapped(n: nat, low: nat, high: nat, times: nat)
    ensures low < WORD && high < WORD && n == low + WORD * high + WORD * WORD * times ==>
      n % (WORD * WORD) == low + WORD * high
  {}

  /** The number of bytes in the buffer, from the bit count. */
  lemma CountIndex(c0: Word, c1: Word, length: nat)
    requires Counted([c0, c1], length)
    ensures c0 / 8 % 64 == Left(length)
  {
    BufferIndex(c0, length, 0x80_0000 * c1 + 0x80_0000 * WORD * (8 * length / (WORD * WORD)));
  }

  lemma BufferIndex(c: nat, length: nat, blocks: nat)
    ensures 8 * length == c + 512 * blocks ==> c / 8 % 64 == length % 64
  {}

  lemma LittleCount(c0: Word, c1: Word, length: nat)
    requires Counted([c0, c1], length)
    ensures Encoded([c0, c1]) == Little(8 * length, 8)
  {
    hide Little;
    var n := 8 * length;
    var wraps := n / (WORD * WORD);
    LittleSplit(c0, c1 + WORD * wraps);
    LittleHigh(c1, wraps);
    assert [c0, c1][1..] == [c1] && [c1][1..] == [];
    assert Encoded([]) == [];
  }

  /** The eight bytes of a number are the four of its low word and then the four above. */
  lemma LittleSplit(low: Word, high: nat)
    ensures Little(low + WORD * high, 8) == Little(low, 4) + Little(high, 4)
  {
    hide Little, ByteOf;
    LittleCarry(low, 0x100_0000 * high, 7);
    LittleCarry(low / 0x100, 0x1_0000 * high, 6);
    LittleCarry(low / 0x1_0000, 0x100 * high, 5);
    LittleCarry(low / 0x100_0000, high, 4);
    LittleWord(low);
    Quarters(low);
  }

  lemma LittleCarry(low: nat, high: nat, count: nat)
    ensures Little(low + 0x100 * high, count + 1) == [ByteOf(low % 0x100)] + Little(low / 0x100 + high, count)
  {
    hide Little;
    LittleStep(low + 0x100 * high, count);
    Carried(low, high);
  }

  lemma Carried(low: nat, high: nat)
    ensures (low + 0x100 * high) % 0x100 == low % 0x100 && (low + 0x100 * high) / 0x100 == low / 0x100 + high
  {}

  lemma LittleHigh(c: Word, wraps: nat)
    ensures Little(c + WORD * wraps, 4) == Little(c, 4)
  {
    hide Little, ByteOf;
    LittleWord(c);
    LittleCarry(c, 0x100_0000 * wraps, 3);
    LittleCarry(c / 0x100, 0x1_0000 * wraps, 2);
    LittleCarry(c / 0x1_0000, 0x100 * wraps, 1);
    LittleCarry(c / 0x100_0000, wraps, 0);
    Quarters(c);
    assert Little(c / 0x100_0000 / 0x100 + wraps, 0) == [];
  }

  // ----- MD5_CTX -----

  method MD5Memcpy(output: array<Byte>, at: nat, input: seq<Byte>)
    requires at + |input| <= output.Length
    modifies output
    ensures output[..] == old(output[..at]) + input + old(output[at + |input|..])
    ensures output[..at + |input|] == old(output[..at]) + input
  {
    var i := 0;
    while i < |input|
      invariant i <= |input|
      invariant forall k :: 0 <= k < output.Length ==>
        output[k] == if at <= k < at + i then input[k - at] else old(output[k])
    {
      output[at + i] := input[i];
      i := i + 1;
    }
  }

  lemma TwoWords(count: seq<Word>, length: nat)
    requires Counted(count, length)
    ensures |count| == 2 && count == [count[0], count[1]]
  {}

  method MD5Memset(output: array<Byte>, value: Byte)
    modifies output
    ensures forall k :: 0 <= k < output.Length ==> output[k] == value
  {
    var i := 0;
    while i < output.Length
      invariant i <= output.Length && forall k :: 0 <= k < i ==> output[k] == value
    {
      output[i] := value;
      i := i + 1;
    }
  }

  /** Update the number of bits, `before` being the number of bytes counted so far. */
  method AddBits(count: seq<Word>, length: nat, ghost before: nat) returns (sum: seq<Word>)
    requires length < WORD && Counted(count, before)
    ensures Counted(sum, before + length)
  {
    var bits := 8 * length % WORD;
    var low := (count[0] + bits) % WORD;
    var high := count[1];
    if low < bits {
      high := (high + 1) % WORD;
    }
    high := (high + length / 0x2000_0000) % WORD;
    sum := [low, high];
    CountCarries(count[0], count[1], length, low, high);
    CountsAgree(before, length);
  }

  /** An input length for which the loop test does not wrap, after `before` bytes. */
  predicate Takes(before: nat, length: nat) {
    length < WORD && (Left(before) == 0 || Left(before) + length < WORD)
  }

  /** Transform as many times as possible. */
  method TransformBlocks(state: seq<Word>, input: seq<Byte>, start: nat, ghost before: seq<Byte>)
      returns (updated: seq<Word>, i: nat)
    requires Takes(|before|, |input|)
    requires start <= |input| && Left(|before| + start) == 0
    requires state == Words(Absorb(INITIAL, before + input[..start]))
    ensures i <= |input| < i + 64 && Left(|before| + i) == 0
    ensures updated == Words(Absorb(INITIAL, before + input))
  {
    hide Absorb, Transform, Left;
    updated, i := state, start;
    while (i + 63) % WORD < |input|
      invariant i <= |input| && Left(|before| + i) == 0
      invariant updated == Words(Absorb(INITIAL, before + input[..i]))
      decreases |input| - i
    {
      NoWrap(|before|, i, |input|);
      ghost var all := before + input;
      AbsorbBlock(INITIAL, all, |before| + i);
      assert all[..|before| + i] == before + input[..i] && all[..|before| + i + 64] == before + input[..i + 64];
      assert all[|before| + i..|before| + i + 64] == input[i..i + 64];
      Remainder(0, |before| + i);
      updated := MD5Transform(updated, input[i..i + 64]);
      i := i + 64;
    }
    NoWrap(|before|, i, |input|);
    assert (before + input)[..|before| + i] == before + input[..i];
    AbsorbTail(INITIAL, before + input, |before| + i);
  }

  lemma NoWrap(before: nat, i: nat, length: nat)
    requires i <= length && Left(before + i) == 0 && Takes(before, length)
    ensures (i + 63) % WORD == i + 63
  {}

  class Context {
    var state: seq<Word>
    var count: seq<Word>
    const buffer: array<Byte>
    /** Everything passed to MD5Update so far. */
    ghost var message: seq<Byte>

    ghost predicate Valid()
      reads this, buffer
    {
      && buffer.Length == 64 && |state| == 4 && Counted(count, |message|)
      && state == Words(Absorb(INITIAL, message))
      && buffer[..Left(|message|)] == message[|message| - Left(|message|)..]
    }

    /** MD5Init */
    constructor ()
      ensures Valid() && message == [] && fresh(buffer)
    {
      count := [0, 0];
      state := [0x67452301, 0xefcdab89, 0x98badcfe, 0x10325476];
      buffer := new Byte[64];
      message := [];
    }

    /** Fill the buffer up with `part` and transform it. */
    method TransformBuffer(index: nat, part: seq<Byte>)
      requires Valid() && index == Left(|message|) && index + |part| == 64
      modifies this`state, buffer
      ensures state == Words(Absorb(INITIAL, message + part))
    {
      hide Absorb, Transform, Left, Counted;
      ghost var all := message + part;
      ghost var full := |message| - index;
      MD5Memcpy(buffer, index, part);
      assert buffer[..index + |part|] == buffer[..];
      state := MD5Transform(state, buffer[..]);
      Remainder(|message|, full);
      AbsorbTail(INITIAL, message, full);
      AbsorbBlock(INITIAL, all, full);
      assert all[..full] == message[..full] && all[..full + 64] == all;
      assert all[full..full + 64] == message[full..] + part;
    }

    /** Buffer remaining input. */
    method BufferRest(index: nat, rest: seq<Byte>, ghost all: seq<Byte>)
      requires buffer.Length == 64 && index + |rest| == Left(|all|)
      requires buffer[..index] + rest == all[|all| - Left(|all|)..]
      modifies buffer
      ensures buffer[..Left(|all|)] == all[|all| - Left(|all|)..]
    {
      hide Left;
      MD5Memcpy(buffer, index, rest);
    }

    /** `i + 63` is an unsigned 32-bit sum; UpdateOverruns says when it wraps. */
    method MD5Update(input: seq<Byte>)
      requires Valid() && Takes(|message|, |input|)
      modifies this`state, this`count, this`message, buffer
      ensures Valid() && message == old(message) + input
    {
      hide Absorb, Left, Counted, Words;
      ghost var before, all := message, message + input;
      TwoWords(count, |before|);
      var index := count[0] / 8 % 64;
      CountIndex(count[0], count[1], |before|);
      ghost var full := |before| - index;
      Remainder(|before|, full);
      var counted := AddBits(count, |input|, |before|);
      var i: nat;
      var partLen := 64 - index;
      if |input| >= partLen {
        TransformBuffer(index, input[..partLen]);
        assert |before| + partLen == full + 64;
        state, i := TransformBlocks(state, input, partLen, before);
        full := |before| + i;
        index := 0;
      } else {
        i := 0;
        AbsorbShort(INITIAL, before, all);
      }
      Remainder(|all|, full);
      assert buffer[..index] + input[i..] == all[full..];
      BufferRest(index, input[i..], all);
      count := counted;
      message := all;
    }

    method MD5Final() returns (digest: seq<Byte>)
      requires Valid()
      modifies this`state, this`count, this`message, buffer
      ensures digest == Digest(old(message))
      ensures state == [0, 0, 0, 0] && count == [0, 0] && forall k :: 0 <= k < buffer.Length ==> buffer[k] == 0
    {
      hide Absorb, Encoded, Little, Counted;
      ghost var m := message;
      TwoWords(count, |m|);
      var bits := Encode(count);
      LittleCount(count[0], count[1], |m|);
      var index := count[0] / 8 % 64;
      CountIndex(count[0], count[1], |m|);
      var padLen := if index < 56 then 56 - index else 120 - index;
      assert PADDING()[..padLen] == Padding(|m|);
      MD5Update(PADDING()[..padLen]);
      MD5Update(bits);
      assert message == Padded(m) && message[..|message|] == message;
      digest := Encode(state);
      state, count, message := [0, 0, 0, 0], [0, 0], [];
      MD5Memset(buffer, 0);
    }
  }

  function Joined(pieces: seq<seq<Byte>>): seq<Byte> {
    if pieces == [] then [] else Joined(pieces[..|pieces| - 1]) + pieces[|pieces| - 1]
  }

  /** Any number of updates: the digest depends only on the pieces put together. */
  method DigestPieces(pieces: seq<seq<Byte>>) returns (digest: seq<Byte>)
    requires forall k :: 0 <= k < |pieces| ==> Takes(|Joined(pieces[..k])|, |pieces[k]|)
    ensures digest == Digest(Joined(pieces))
  {
    hide Digest, Takes;
    var context := new Context();
    for i := 0 to |pieces|
      invariant context.Valid() && context.message == Joined(pieces[..i])
      invariant fresh(context) && fresh(context.buffer)
    {
      context.MD5Update(pieces[i]);
      assert pieces[..i + 1][..i] == pieces[..i];
    }
    assert pieces[..|pieces|] == pieces;
    digest := context.MD5Final();
  }

  function PADDING(): (p: seq<Byte>)
    ensures |p| == 64
  {
    [0x80] + seq(63, _ => 0x00)
  }

  lemma CountsAgree(before: nat, more: nat)
    ensures (8 * before % (WORD * WORD) + 8 * more) % (WORD * WORD) == 8 * (before + more) % (WORD * WORD)
  {}

  /** With `index` bytes buffered and `index + length` past 2^32 the loop reads beyond the input:
      it reaches `i`, still sees `i + 63` below the length, and the block at `i` does not fit. */
  lemma UpdateOverruns(index: nat, length: nat)
    requires 0 < index < 64 && length < WORD && !Takes(index, length)
    ensures var i := WORD - index;
      && (i - (64 - index)) % 64 == 0 && i <= length < i + 64 && (i + 63) % WORD < length
      && forall k :: 0 <= k && 64 - index + 64 * k < i ==> (64 - index + 64 * k + 63) % WORD < length
  {}

  // ----- Digests as text -----

  function StrToDigest(s: string): Result<seq<Byte>> {
    if 32 <= |s| && Digits(s[..32]) then Ok(Packed(s[..32])) else Fail(Unsupported)
  }

  /** Sixteen pairs of digits; what follows them is not looked at. */
  method MD5StrToDigest(s: string) returns (digest: Result<seq<Byte>>)
    ensures digest == StrToDigest(s)
  {
    hide HexValue, IsHex, Packed, Join;
    var bs: seq<Byte> := [];
    var i := 0;
    while i < 16
      invariant i <= 16 && 2 * i <= |s| && Digits(s[..2 * i]) && bs == Packed(s[..2 * i])
    {
      if 2 * i >= |s| || HexValue(s[2 * i]) == 16 {
        return Fail(Unsupported);
      }
      if 2 * i + 1 >= |s| || HexValue(s[2 * i + 1]) == 16 {
        return Fail(Unsupported);
      }
      bs := bs + [Join(HexValue(s[2 * i]), HexValue(s[2 * i + 1]))];
      PackedSnoc(s[..2 * i + 2]);
      assert s[..2 * i + 2][..2 * i] == s[..2 * i];
      i := i + 1;
    }
    return Ok(bs);
  }

  lemma {:induction false} PackedSnoc(s: string)
    requires |s| >= 2 && Digits(s)
    ensures Packed(s) == Packed(s[..|s| - 2]) + [Join(HexValue(s[|s| - 2]), HexValue(s[|s| - 1]))]
    decreases |s|
  {
    hide HexValue, Join, IsHex;
    if |s| > 2 {
      PackedSnoc(s[2..]);
      assert s[2..][..|s| - 4] == s[..|s| - 2][2..];
    } else {
      assert s[2..] == [] && s[..0] == [];
    }
  }
}
