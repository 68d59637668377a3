/** What the functions of Md5 do to single bits, and a worked example that fixes every constant of
    the algorithm: the digest of "abc" in section A.5 of RFC 1321. */
module Md5Laws {

  import opened Ez8
  import opened Md5

  // ----- The functions, bit by bit -----

  function Bits(w: Word): bv32 {
    w as bv32
  }

  lemma BitsBack(b: bv32)
    ensures Bits(b as Word) == b
  {}

  function Chosen(x: bv32, y: bv32, z: bv32): bv32 {
    (x & y) | (!x & z)
  }

  lemma FChooses(x: Word, y: Word, z: Word)
    ensures F(x, y, z) == Chosen(Bits(x), Bits(y), Bits(z)) as Word
  {}

  lemma ChosenMasked(x: bv32, y: bv32, z: bv32)
    ensures Chosen(x, y, z) & x == y & x && Chosen(x, y, z) & !x == z & !x
  {}

  /** Where a bit of `x` is set F takes that of `y`, elsewhere that of `z`. */
  lemma FSelects(x: Word, y: Word, z: Word)
    ensures Bits(F(x, y, z)) & Bits(x) == Bits(y) & Bits(x)
    ensures Bits(F(x, y, z)) & !Bits(x) == Bits(z) & !Bits(x)
  {
    hide Bits, F, Chosen;
    FChooses(x, y, z);
    BitsBack(Chosen(Bits(x), Bits(y), Bits(z)));
    ChosenMasked(Bits(x), Bits(y), Bits(z));
  }

  /** G is F with `z` to choose between `x` and `y`. */
  lemma GIsF(x: Word, y: Word, z: Word)
    ensures G(x, y, z) == F(z, x, y)
  {}

  function Parity(x: bv32, y: bv32, z: bv32): bv32 {
    x ^ y ^ z
  }

  lemma HIsParity(x: Word, y: Word, z: Word)
    ensures H(x, y, z) == Parity(Bits(x), Bits(y), Bits(z)) as Word
  {}

  lemma ParityCancels(x: bv32, y: bv32, z: bv32)
    ensures Parity(x, y, z) ^ z == x ^ y
  {}

  /** H differs from `z` where `x` and `y` differ. */
  lemma HDiffers(x: Word, y: Word, z: Word)
    ensures Bits(H(x, y, z)) ^ Bits(z) == Bits(x) ^ Bits(y)
  {
    hide Bits, H, Parity;
    HIsParity(x, y, z);
    BitsBack(Parity(Bits(x), Bits(y), Bits(z)));
    ParityCancels(Bits(x), Bits(y), Bits(z));
  }

  function Flipped(x: bv32, y: bv32, z: bv32): bv32 {
    y ^ (x | !z)
  }

  lemma IFlips(x: Word, y: Word, z: Word)
    ensures I(x, y, z) == Flipped(Bits(x), Bits(y), Bits(z)) as Word
  {}

  lemma FlippedMasked(x: bv32, y: bv32, z: bv32)
    ensures Flipped(x, y, z) & z == (x ^ y) & z && Flipped(x, y, z) & !z == !y & !z
  {}

  /** Where a bit of `z` is set I compares `x` and `y`, elsewhere it negates `y`. */
  lemma ISelects(x: Word, y: Word, z: Word)
    ensures Bits(I(x, y, z)) & Bits(z) == (Bits(x) ^ Bits(y)) & Bits(z)
    ensures Bits(I(x, y, z)) & !Bits(z) == !Bits(y) & !Bits(z)
  {
    hide Bits, I, Flipped;
    IFlips(x, y, z);
    BitsBack(Flipped(Bits(x), Bits(y), Bits(z)));
    FlippedMasked(Bits(x), Bits(y), Bits(z));
  }

  lemma RotateBits(x: Word, n: nat)
    requires 0 < n < 32
    ensures Bits(RotateLeft(x, n)) == Shifted(Bits(x), n)
  {
    hide Shifted;
    BitsBack(Shifted(Bits(x), n));
  }

  lemma ShiftsRotate(b: bv32)
    ensures Shifted(b, 4) == b.RotateLeft(4)
    ensures Shifted(b, 5) == b.RotateLeft(5)
    ensures Shifted(b, 6) == b.RotateLeft(6)
    ensures Shifted(b, 7) == b.RotateLeft(7)
    ensures Shifted(b, 9) == b.RotateLeft(9)
    ensures Shifted(b, 10) == b.RotateLeft(10)
    ensures Shifted(b, 11) == b.RotateLeft(11)
    ensures Shifted(b, 12) == b.RotateLeft(12)
    ensures Shifted(b, 14) == b.RotateLeft(14)
    ensures Shifted(b, 15) == b.RotateLeft(15)
    ensures Shifted(b, 16) == b.RotateLeft(16)
    ensures Shifted(b, 17) == b.RotateLeft(17)
    ensures Shifted(b, 20) == b.RotateLeft(20)
    ensures Shifted(b, 21) == b.RotateLeft(21)
    ensures Shifted(b, 22) == b.RotateLeft(22)
    ensures Shifted(b, 23) == b.RotateLeft(23)
  {}

  /** Every rotation of the algorithm is the rotation of the bits. */
  lemma Rotates(x: Word)
    ensures Bits(RotateLeft(x, 4)) == Bits(x).RotateLeft(4)
    ensures Bits(RotateLeft(x, 5)) == Bits(x).RotateLeft(5)
    ensures Bits(RotateLeft(x, 6)) == Bits(x).RotateLeft(6)
    ensures Bits(RotateLeft(x, 7)) == Bits(x).RotateLeft(7)
    ensures Bits(RotateLeft(x, 9)) == Bits(x).RotateLeft(9)
    ensures Bits(RotateLeft(x, 10)) == Bits(x).RotateLeft(10)
    ensures Bits(RotateLeft(x, 11)) == Bits(x).RotateLeft(11)
    ensures Bits(RotateLeft(x, 12)) == Bits(x).RotateLeft(12)
    ensures Bits(RotateLeft(x, 14)) == Bits(x).RotateLeft(14)
    ensures Bits(RotateLeft(x, 15)) == Bits(x).RotateLeft(15)
    ensures Bits(RotateLeft(x, 16)) == Bits(x).RotateLeft(16)
    ensures Bits(RotateLeft(x, 17)) == Bits(x).RotateLeft(17)
    ensures Bits(RotateLeft(x, 20)) == Bits(x).RotateLeft(20)
    ensures Bits(RotateLeft(x, 21)) == Bits(x).RotateLeft(21)
    ensures Bits(RotateLeft(x, 22)) == Bits(x).RotateLeft(22)
    ensures Bits(RotateLeft(x, 23)) == Bits(x).RotateLeft(23)
  {
    hide Bits, Shifted, RotateLeft;
    ShiftsRotate(Bits(x));
    RotateBits(x, 4);
    RotateBits(x, 5);
    RotateBits(x, 6);
    RotateBits(x, 7);
    RotateBits(x, 9);
    RotateBits(x, 10);
    RotateBits(x, 11);
    RotateBits(x, 12);
    RotateBits(x, 14);
    RotateBits(x, 15);
    RotateBits(x, 16);
    RotateBits(x, 17);
    RotateBits(x, 20);
    RotateBits(x, 21);
    RotateBits(x, 22);
    RotateBits(x, 23);
  }

  // ----- A worked example -----

  /** The padded message as sixteen words. */
  function Abc(): (x: seq<Word>)
    ensures |x| == 16
  {
    [0x80636261, 0x0, 0x0, 0x0, 0x0, 0x0, 0x0, 0x0, 0x0, 0x0, 0x0, 0x0, 0x0, 0x0, 0x18, 0x0]
  }

  function Sum(a: Word, b: Word, c: Word, d: Word): Word {
    (a + b + c + d) % WORD
  }

  /** Operation `i` on these registers yields `next`, the first operands summing up to `sum`. */
  predicate Yields(i: nat, a: Word, b: Word, c: Word, d: Word, w: Word, sum: Word, next: Word)
    requires i < 64
  {
    var (k, s, ac) := Schedule(i);
    Abc()[k] == w && Sum(a, Mix(i / 16, b, c, d), w, ac) == sum && Add(RotateLeft(sum, s), b) == next
  }

  lemma Turned(i: nat, n: nat, a: Word, b: Word, c: Word, d: Word, w: Word, sum: Word, next: Word)
    requires i < n <= 64 && Yields(i, a, b, c, d, w, sum, next)
    ensures Operations(Registers(a, b, c, d), Abc(), i, n) == Operations(Registers(d, next, b, c), Abc(), i + 1, n)
  {
    hide Mix, Schedule, RotateLeft, Abc;
    NextOperation(Registers(a, b, c, d), Abc(), i, n);
    Sums(a, Mix(i / 16, b, c, d), w, Schedule(i).2);
  }

  lemma Sums(a: Word, b: Word, c: Word, d: Word)
    ensures Add(Add(Add(a, b), c), d) == Sum(a, b, c, d)
  {}

  lemma Mixes00()
    ensures Mix(0, 0xefcdab89, 0x98badcfe, 0x10325476) == 0x98badcfe
    ensures Mix(0, 0xd6d117b4, 0xefcdab89, 0x98badcfe) == 0xceebcbca
    ensures Mix(0, 0x344a8432, 0xd6d117b4, 0xefcdab89) == 0xdfc52fb9
    ensures Mix(0, 0x2f6fbd72, 0x344a8432, 0xd6d117b4) == 0xf4da86b6
    ensures Mix(0, 0x7ad956f2, 0x2f6fbd72, 0x344a8432) == 0x2e4b9472
    ensures Mix(0, 0xc73741ef, 0x7ad956f2, 0x2f6fbd72) == 0x6a59fcf2
    ensures Mix(0, 0x8bac3051, 0xc73741ef, 0x7ad956f2) == 0xf37546e3
    ensures Mix(0, 0x207dc67b, 0x8bac3051, 0xc73741ef) == 0xc72e01d5
    ensures Mix(0, 0x928d99f6, 0x207dc67b, 0x8bac3051) == 0x092da073
    ensures Mix(0, 0x854b3712, 0x928d99f6, 0x207dc67b) == 0xa03dd17b
    ensures Mix(0, 0x74e2f284, 0x854b3712, 0x928d99f6) == 0x864f3b72
    ensures Mix(0, 0x3020401c, 0x74e2f284, 0x854b3712) == 0xb56b7706
    ensures Mix(0, 0x5ed49596, 0x3020401c, 0x74e2f284) == 0x30226214
    ensures Mix(0, 0xdda9b9a6, 0x5ed49596, 0x3020401c) == 0x7c80d19e
    ensures Mix(0, 0xa1051895, 0xdda9b9a6, 0x5ed49596) == 0xdfd19d86
    ensures Mix(0, 0xe396856b, 0xa1051895, 0xdda9b9a6) == 0xbd2d3885
  {}

  lemma Turns00()
    ensures RotateLeft(0x57ce06d8, 7) == 0xe7036c2b
    ensures RotateLeft(0xc7e5d796, 12) == 0x5d796c7e
    ensures RotateLeft(0x9ca07d92, 17) == 0xfb253940
    ensures RotateLeft(0xa666012d, 22) == 0x4b699980
    ensures RotateLeft(0xfa98bbd5, 7) == 0x4c5deafd
    ensures RotateLeft(0xe62c474e, 12) == 0xc474ee62
    ensures RotateLeft(0xcb154a68, 17) == 0x94d1962a
    ensures RotateLeft(0x3f4dedc8, 22) == 0x720fd37b
    ensures RotateLeft(0x39e57b3a, 7) == 0xf2bd9d1c
    ensures RotateLeft(0xb72ef97b, 12) == 0xef97bb72
    ensures RotateLeft(0xa6cc5d9e, 17) == 0xbb3d4d98
    ensures RotateLeft(0xd155e8ba, 22) == 0x2eb4557a
    ensures RotateLeft(0x20fdaa48, 7) == 0x7ed52410
    ensures RotateLeft(0xeefc35b5, 12) == 0xc35b5eef
    ensures RotateLeft(0xb66b2148, 17) == 0x42916cd6
    ensures RotateLeft(0x65b5d63c, 22) == 0x8f196d75
  {}

  lemma Abc00()
    ensures Operations(Registers(0x67452301, 0xefcdab89, 0x98badcfe, 0x10325476), Abc(), 0, 16) ==
            Registers(0xdda9b9a6, 0x72aff2e0, 0xe396856b, 0xa1051895)
  {
    hide Operations, Operation, Turn, Mix, RotateLeft;
    Mixes00();
    Turns00();
    Turned(0, 16, 0x67452301, 0xefcdab89, 0x98badcfe, 0x10325476, 0x80636261, 0x57ce06d8, 0xd6d117b4);
    Turned(1, 16, 0x10325476, 0xd6d117b4, 0xefcdab89, 0x98badcfe, 0x00000000, 0xc7e5d796, 0x344a8432);
    Turned(2, 16, 0x98badcfe, 0x344a8432, 0xd6d117b4, 0xefcdab89, 0x00000000, 0x9ca07d92, 0x2f6fbd72);
    Turned(3, 16, 0xefcdab89, 0x2f6fbd72, 0x344a8432, 0xd6d117b4, 0x00000000, 0xa666012d, 0x7ad956f2);
    Turned(4, 16, 0xd6d117b4, 0x7ad956f2, 0x2f6fbd72, 0x344a8432, 0x00000000, 0xfa98bbd5, 0xc73741ef);
    Turned(5, 16, 0x344a8432, 0xc73741ef, 0x7ad956f2, 0x2f6fbd72, 0x00000000, 0xe62c474e, 0x8bac3051);
    Turned(6, 16, 0x2f6fbd72, 0x8bac3051, 0xc73741ef, 0x7ad956f2, 0x00000000, 0xcb154a68, 0x207dc67b);
    Turned(7, 16, 0x7ad956f2, 0x207dc67b, 0x8bac3051, 0xc73741ef, 0x00000000, 0x3f4dedc8, 0x928d99f6);
    Turned(8, 16, 0xc73741ef, 0x928d99f6, 0x207dc67b, 0x8bac3051, 0x00000000, 0x39e57b3a, 0x854b3712);
    Turned(9, 16, 0x8bac3051, 0x854b3712, 0x928d99f6, 0x207dc67b, 0x00000000, 0xb72ef97b, 0x74e2f284);
    Turned(10, 16, 0x207dc67b, 0x74e2f284, 0x854b3712, 0x928d99f6, 0x00000000, 0xa6cc5d9e, 0x3020401c);
    Turned(11, 16, 0x928d99f6, 0x3020401c, 0x74e2f284, 0x854b3712, 0x00000000, 0xd155e8ba, 0x5ed49596);
    Turned(12, 16, 0x854b3712, 0x5ed49596, 0x3020401c, 0x74e2f284, 0x00000000, 0x20fdaa48, 0xdda9b9a6);
    Turned(13, 16, 0x74e2f284, 0xdda9b9a6, 0x5ed49596, 0x3020401c, 0x00000000, 0xeefc35b5, 0xa1051895);
    Turned(14, 16, 0x3020401c, 0xa1051895, 0xdda9b9a6, 0x5ed49596, 0x00000018, 0xb66b2148, 0xe396856b);
    Turned(15, 16, 0x5ed49596, 0xe396856b, 0xa1051895, 0xdda9b9a6, 0x00000000, 0x65b5d63c, 0x72aff2e0);
    OperationsEnd(Registers(0xdda9b9a6, 0x72aff2e0, 0xe396856b, 0xa1051895), Abc(), 16);
  }

  lemma Mixes16()
    ensures Mix(1, 0x72aff2e0, 0xe396856b, 0xa1051895) == 0x629795ea
    ensures Mix(1, 0x3e9e9126, 0x72aff2e0, 0xe396856b) == 0x32bff3a2
    ensures Mix(1, 0x4a1d804e, 0x3e9e9126, 0x72aff2e0) == 0x4e1d8146
    ensures Mix(1, 0xe25e1652, 0x4a1d804e, 0x3e9e9126) == 0x621f104a
    ensures Mix(1, 0xb5b204e4, 0xe25e1652, 0x4a1d804e) == 0xa0521654
    ensures Mix(1, 0x59a8ffda, 0xb5b204e4, 0xe25e1652) == 0x55a816f6
    ensures Mix(1, 0x6d002f1e, 0x59a8ffda, 0xb5b204e4) == 0x6d08ff1e
    ensures Mix(1, 0xabfc7920, 0x6d002f1e, 0x59a8ffda) == 0x2da87904
    ensures Mix(1, 0x47092c07, 0xabfc7920, 0x6d002f1e) == 0xc7fc7c26
    ensures Mix(1, 0xb7f268cf, 0x47092c07, 0xabfc7920) == 0xe7f16c07
    ensures Mix(1, 0x09388eff, 0xb7f268cf, 0x47092c07) == 0xb1fa4ccf
    ensures Mix(1, 0xfe1623b1, 0x09388eff, 0xb7f268cf) == 0xbe1aa6b1
    ensures Mix(1, 0x786acb8f, 0xfe1623b1, 0x09388eff) == 0xfe2eab8f
    ensures Mix(1, 0x790a77fb, 0x786acb8f, 0xfe1623b1) == 0x786aebbf
    ensures Mix(1, 0x9f47e4f8, 0x790a77fb, 0x786acb8f) == 0x1942f4f8
    ensures Mix(1, 0xa62884aa, 0x9f47e4f8, 0x790a77fb) == 0xa64d84aa
  {}

  lemma Turns16()
    ensures RotateLeft(0x365f74f2, 5) == 0xcbee9e46
    ensures RotateLeft(0x9405bf77, 9) == 0x0b7eef28
    ensures RotateLeft(0x58126102, 14) == 0x98409604
    ensures RotateLeft(0x3ee92d35, 20) == 0xd353ee92
    ensures RotateLeft(0xb51fb7d7, 5) == 0xa3f6faf6
    ensures RotateLeft(0xa209ab97, 9) == 0x13572f44
    ensures RotateLeft(0x2808fbf1, 14) == 0x3efc4a02
    ensures RotateLeft(0xcb2e79b0, 20) == 0x9b0cb2e7
    ensures RotateLeft(0x438749e6, 5) == 0x70e93cc8
    ensures RotateLeft(0x1828a313, 9) == 0x51462630
    ensures RotateLeft(0x52cbd376, 14) == 0xf4dd94b2
    ensures RotateLeft(0x4a7de7a5, 20) == 0x7a54a7de
    ensures RotateLeft(0x6004fd63, 5) == 0x009fac6c
    ensures RotateLeft(0x7e931eb6, 9) == 0x263d6cfd
    ensures RotateLeft(0x7ec81b82, 14) == 0x06e09fb2
    ensures RotateLeft(0xabe29cc3, 20) == 0xcc3abe29
  {}

  lemma Abc16()
    ensures Operations(Registers(0xdda9b9a6, 0x72aff2e0, 0xe396856b, 0xa1051895), Abc(), 16, 32) ==
            Registers(0x790a77fb, 0x726342d3, 0xa62884aa, 0x9f47e4f8)
  {
    hide Operations, Operation, Turn, Mix, RotateLeft;
    Mixes16();
    Turns16();
    Turned(16, 32, 0xdda9b9a6, 0x72aff2e0, 0xe396856b, 0xa1051895, 0x00000000, 0x365f74f2, 0x3e9e9126);
    Turned(17, 32, 0xa1051895, 0x3e9e9126, 0x72aff2e0, 0xe396856b, 0x00000000, 0x9405bf77, 0x4a1d804e);
    Turned(18, 32, 0xe396856b, 0x4a1d804e, 0x3e9e9126, 0x72aff2e0, 0x00000000, 0x58126102, 0xe25e1652);
    Turned(19, 32, 0x72aff2e0, 0xe25e1652, 0x4a1d804e, 0x3e9e9126, 0x80636261, 0x3ee92d35, 0xb5b204e4);
    Turned(20, 32, 0x3e9e9126, 0xb5b204e4, 0xe25e1652, 0x4a1d804e, 0x00000000, 0xb51fb7d7, 0x59a8ffda);
    Turned(21, 32, 0x4a1d804e, 0x59a8ffda, 0xb5b204e4, 0xe25e1652, 0x00000000, 0xa209ab97, 0x6d002f1e);
    Turned(22, 32, 0xe25e1652, 0x6d002f1e, 0x59a8ffda, 0xb5b204e4, 0x00000000, 0x2808fbf1, 0xabfc7920);
    Turned(23, 32, 0xb5b204e4, 0xabfc7920, 0x6d002f1e, 0x59a8ffda, 0x00000000, 0xcb2e79b0, 0x47092c07);
    Turned(24, 32, 0x59a8ffda, 0x47092c07, 0xabfc7920, 0x6d002f1e, 0x00000000, 0x438749e6, 0xb7f268cf);
    Turned(25, 32, 0x6d002f1e, 0xb7f268cf, 0x47092c07, 0xabfc7920, 0x00000018, 0x1828a313, 0x09388eff);
    Turned(26, 32, 0xabfc7920, 0x09388eff, 0xb7f268cf, 0x47092c07, 0x00000000, 0x52cbd376, 0xfe1623b1);
    Turned(27, 32, 0x47092c07, 0xfe1623b1, 0x09388eff, 0xb7f268cf, 0x00000000, 0x4a7de7a5, 0x786acb8f);
    Turned(28, 32, 0xb7f268cf, 0x786acb8f, 0xfe1623b1, 0x09388eff, 0x00000000, 0x6004fd63, 0x790a77fb);
    Turned(29, 32, 0x09388eff, 0x790a77fb, 0x786acb8f, 0xfe1623b1, 0x00000000, 0x7e931eb6, 0x9f47e4f8);
    Turned(30, 32, 0xfe1623b1, 0x9f47e4f8, 0x790a77fb, 0x786acb8f, 0x00000000, 0x7ec81b82, 0xa62884aa);
    Turned(31, 32, 0x786acb8f, 0xa62884aa, 0x9f47e4f8, 0x790a77fb, 0x00000000, 0xabe29cc3, 0x726342d3);
    OperationsEnd(Registers(0x790a77fb, 0x726342d3, 0xa62884aa, 0x9f47e4f8), Abc(), 32);
  }

  lemma Mixes32()
    ensures Mix(2, 0x726342d3, 0xa62884aa, 0x9f47e4f8) == 0x4b0c2281
    ensures Mix(2, 0xb3707ebf, 0x726342d3, 0xa62884aa) == 0x673bb8c6
    ensures Mix(2, 0x60127b2e, 0xb3707ebf, 0x726342d3) == 0xa1014742
    ensures Mix(2, 0x8d212ff5, 0x60127b2e, 0xb3707ebf) == 0x5e432a64
    ensures Mix(2, 0x3b0875c7, 0x8d212ff5, 0x60127b2e) == 0xd63b211c
    ensures Mix(2, 0x21b117b9, 0x3b0875c7, 0x8d212ff5) == 0x97984d8b
    ensures Mix(2, 0x6e7429d5, 0x21b117b9, 0x3b0875c7) == 0x74cd4bab
    ensures Mix(2, 0x3575227e, 0x6e7429d5, 0x21b117b9) == 0x7ab01c12
    ensures Mix(2, 0x5a2f5ea5, 0x3575227e, 0x6e7429d5) == 0x012e550e
    ensures Mix(2, 0x11de1779, 0x5a2f5ea5, 0x3575227e) == 0x7e846ba2
    ensures Mix(2, 0xfadcaa38, 0x11de1779, 0x5a2f5ea5) == 0xb12de3e4
    ensures Mix(2, 0x31c465ca, 0xfadcaa38, 0x11de1779) == 0xdac6d88b
    ensures Mix(2, 0x4c6124f4, 0x31c465ca, 0xfadcaa38) == 0x8779eb06
    ensures Mix(2, 0x7f2e507b, 0x4c6124f4, 0x31c465ca) == 0x028b1145
    ensures Mix(2, 0x99d9679d, 0x7f2e507b, 0x4c6124f4) == 0xaa961312
    ensures Mix(2, 0x8fae6399, 0x99d9679d, 0x7f2e507b) == 0x6959547f
  {}

  lemma Turns32()
    ensures RotateLeft(0xc410d3be, 4) == 0x410d3bec
    ensures RotateLeft(0x8df5943f, 11) == 0xaca1fc6f
    ensures RotateLeft(0xb4c72d0e, 16) == 0x2d0eb4c7
    ensures RotateLeft(0xce8ba55b, 23) == 0xade745d2
    ensures RotateLeft(0x2e6a8a1f, 4) == 0xe6a8a1f2
    ensures RotateLeft(0x43899862, 11) == 0x4cc3121c
    ensures RotateLeft(0xf8a9c700, 16) == 0xc700f8a9
    ensures RotateLeft(0x74784e49, 23) == 0x24ba3c27
    ensures RotateLeft(0x4b7aeb8d, 4) == 0xb7aeb8d4
    ensures RotateLeft(0x57fd1fd2, 11) == 0xe8fe92bf
    ensures RotateLeft(0xbb9236e7, 16) == 0x36e7bb92
    ensures RotateLeft(0x397e5435, 23) == 0x1a9cbf2a
    ensures RotateLeft(0x732cd2b8, 4) == 0x32cd2b87
    ensures RotateLeft(0xe4435562, 11) == 0x1aab1722
    ensures RotateLeft(0xfbfcf5d4, 16) == 0xf5d4fbfc
    ensures RotateLeft(0x7a66cfd8, 23) == 0xec3d3367
  {}

  lemma Abc32()
    ensures Operations(Registers(0x790a77fb, 0x726342d3, 0xa62884aa, 0x9f47e4f8), Abc(), 32, 48) ==
            Registers(0x7f2e507b, 0x7beb9700, 0x8fae6399, 0x99d9679d)
  {
    hide Operations, Operation, Turn, Mix, RotateLeft;
    Mixes32();
    Turns32();
    Turned(32, 48, 0x790a77fb, 0x726342d3, 0xa62884aa, 0x9f47e4f8, 0x00000000, 0xc410d3be, 0xb3707ebf);
    Turned(33, 48, 0x9f47e4f8, 0xb3707ebf, 0x726342d3, 0xa62884aa, 0x00000000, 0x8df5943f, 0x60127b2e);
    Turned(34, 48, 0xa62884aa, 0x60127b2e, 0xb3707ebf, 0x726342d3, 0x00000000, 0xb4c72d0e, 0x8d212ff5);
    Turned(35, 48, 0x726342d3, 0x8d212ff5, 0x60127b2e, 0xb3707ebf, 0x00000018, 0xce8ba55b, 0x3b0875c7);
    Turned(36, 48, 0xb3707ebf, 0x3b0875c7, 0x8d212ff5, 0x60127b2e, 0x00000000, 0x2e6a8a1f, 0x21b117b9);
    Turned(37, 48, 0x60127b2e, 0x21b117b9, 0x3b0875c7, 0x8d212ff5, 0x00000000, 0x43899862, 0x6e7429d5);
    Turned(38, 48, 0x8d212ff5, 0x6e7429d5, 0x21b117b9, 0x3b0875c7, 0x00000000, 0xf8a9c700, 0x3575227e);
    Turned(39, 48, 0x3b0875c7, 0x3575227e, 0x6e7429d5, 0x21b117b9, 0x00000000, 0x74784e49, 0x5a2f5ea5);
    Turned(40, 48, 0x21b117b9, 0x5a2f5ea5, 0x3575227e, 0x6e7429d5, 0x00000000, 0x4b7aeb8d, 0x11de1779);
    Turned(41, 48, 0x6e7429d5, 0x11de1779, 0x5a2f5ea5, 0x3575227e, 0x80636261, 0x57fd1fd2, 0xfadcaa38);
    Turned(42, 48, 0x3575227e, 0xfadcaa38, 0x11de1779, 0x5a2f5ea5, 0x00000000, 0xbb9236e7, 0x31c465ca);
    Turned(43, 48, 0x5a2f5ea5, 0x31c465ca, 0xfadcaa38, 0x11de1779, 0x00000000, 0x397e5435, 0x4c6124f4);
    Turned(44, 48, 0x11de1779, 0x4c6124f4, 0x31c465ca, 0xfadcaa38, 0x00000000, 0x732cd2b8, 0x7f2e507b);
    Turned(45, 48, 0xfadcaa38, 0x7f2e507b, 0x4c6124f4, 0x31c465ca, 0x00000000, 0xe4435562, 0x99d9679d);
    Turned(46, 48, 0x31c465ca, 0x99d9679d, 0x7f2e507b, 0x4c6124f4, 0x00000000, 0xfbfcf5d4, 0x8fae6399);
    Turned(47, 48, 0x4c6124f4, 0x8fae6399, 0x99d9679d, 0x7f2e507b, 0x00000000, 0x7a66cfd8, 0x7beb9700);
    OperationsEnd(Registers(0x7f2e507b, 0x7beb9700, 0x8fae6399, 0x99d9679d), Abc(), 48);
  }

  lemma Mixes48()
    ensures Mix(3, 0x7beb9700, 0x8fae6399, 0x99d9679d) == 0xf041fcfb
    ensures Mix(3, 0x7b201df8, 0x7beb9700, 0x8fae6399) == 0x009a0afe
    ensures Mix(3, 0xf4e8e96e, 0x7b201df8, 0x7beb9700) == 0x8fdcf407
    ensures Mix(3, 0xb298cefd, 0xf4e8e96e, 0x7b201df8) == 0x42370791
    ensures Mix(3, 0x8bf025c4, 0xb298cefd, 0xf4e8e96e) == 0x396ff928
    ensures Mix(3, 0x06cc5e8a, 0x8bf025c4, 0xb298cefd) == 0xc41f5a4e
    ensures Mix(3, 0x5b0d97aa, 0x06cc5e8a, 0x8bf025c4) == 0x79c38131
    ensures Mix(3, 0x7d632dd0, 0x5b0d97aa, 0x06cc5e8a) == 0xa67e3a5f
    ensures Mix(3, 0x3bfa2c27, 0x7d632dd0, 0x5b0d97aa) == 0xc29941a7
    ensures Mix(3, 0x7f81cc35, 0x3bfa2c27, 0x7d632dd0) == 0xc467f218
    ensures Mix(3, 0x094454ab, 0x7f81cc35, 0x3bfa2c27) == 0xb2c41bce
    ensures Mix(3, 0x4f9dbe3f, 0x094454ab, 0x7f81cc35) == 0xc6bbeb54
    ensures Mix(3, 0x7327d604, 0x4f9dbe3f, 0x094454ab) == 0xb822416b
    ensures Mix(3, 0x310ade8f, 0x7327d604, 0x4f9dbe3f) == 0xc24d09cb
    ensures Mix(3, 0x624d8cb2, 0x310ade8f, 0x7327d604) == 0xdfd77374
    ensures Mix(3, 0xe484b9d8, 0x624d8cb2, 0x310ade8f) == 0x8cb8354a
  {}

  lemma Turns48()
    ensures RotateLeft(0xe3fcd21b, 6) == 0xff3486f8
    ensures RotateLeft(0xdd9e7232, 10) == 0x79c8cb76
    ensures RotateLeft(0xcb1f7b5f, 15) == 0xbdafe58f
    ensures RotateLeft(0xbab63eca, 21) == 0xd95756c7
    ensures RotateLeft(0x19eb70e3, 6) == 0x7adc38c6
    ensures RotateLeft(0x4815104e, 10) == 0x54413920
    ensures RotateLeft(0x2c4c44ab, 15) == 0x22559626
    ensures RotateLeft(0xb7f2bdf4, 21) == 0xbe96fe57
    ensures RotateLeft(0x390e1e80, 6) == 0x4387a00e
    ensures RotateLeft(0x1da270a2, 10) == 0x89c28876
    ensures RotateLeft(0xd3288cb2, 15) == 0x46596994
    ensures RotateLeft(0x50be291c, 21) == 0x238a17c5
    ensures RotateLeft(0x2ef78c22, 6) == 0xbde3088b
    ensures RotateLeft(0x88cc50ab, 10) == 0x3142ae23
    ensures RotateLeft(0x5a4d046e, 15) == 0x82372d26
    ensures RotateLeft(0xeb66dedf, 21) == 0xdbfd6cdb
  {}

  lemma Abc48()
    ensures Operations(Registers(0x7f2e507b, 0x7beb9700, 0x8fae6399, 0x99d9679d), Abc(), 48, 64) ==
            Registers(0x310ade8f, 0xc08226b3, 0xe484b9d8, 0x624d8cb2)
  {
    hide Operations, Operation, Turn, Mix, RotateLeft;
    Mixes48();
    Turns48();
    Turned(48, 64, 0x7f2e507b, 0x7beb9700, 0x8fae6399, 0x99d9679d, 0x80636261, 0xe3fcd21b, 0x7b201df8);
    Turned(49, 64, 0x99d9679d, 0x7b201df8, 0x7beb9700, 0x8fae6399, 0x00000000, 0xdd9e7232, 0xf4e8e96e);
    Turned(50, 64, 0x8fae6399, 0xf4e8e96e, 0x7b201df8, 0x7beb9700, 0x00000018, 0xcb1f7b5f, 0xb298cefd);
    Turned(51, 64, 0x7beb9700, 0xb298cefd, 0xf4e8e96e, 0x7b201df8, 0x00000000, 0xbab63eca, 0x8bf025c4);
    Turned(52, 64, 0x7b201df8, 0x8bf025c4, 0xb298cefd, 0xf4e8e96e, 0x00000000, 0x19eb70e3, 0x06cc5e8a);
    Turned(53, 64, 0xf4e8e96e, 0x06cc5e8a, 0x8bf025c4, 0xb298cefd, 0x00000000, 0x4815104e, 0x5b0d97aa);
    Turned(54, 64, 0xb298cefd, 0x5b0d97aa, 0x06cc5e8a, 0x8bf025c4, 0x00000000, 0x2c4c44ab, 0x7d632dd0);
    Turned(55, 64, 0x8bf025c4, 0x7d632dd0, 0x5b0d97aa, 0x06cc5e8a, 0x00000000, 0xb7f2bdf4, 0x3bfa2c27);
    Turned(56, 64, 0x06cc5e8a, 0x3bfa2c27, 0x7d632dd0, 0x5b0d97aa, 0x00000000, 0x390e1e80, 0x7f81cc35);
    Turned(57, 64, 0x5b0d97aa, 0x7f81cc35, 0x3bfa2c27, 0x7d632dd0, 0x00000000, 0x1da270a2, 0x094454ab);
    Turned(58, 64, 0x7d632dd0, 0x094454ab, 0x7f81cc35, 0x3bfa2c27, 0x00000000, 0xd3288cb2, 0x4f9dbe3f);
    Turned(59, 64, 0x3bfa2c27, 0x4f9dbe3f, 0x094454ab, 0x7f81cc35, 0x00000000, 0x50be291c, 0x7327d604);
    Turned(60, 64, 0x7f81cc35, 0x7327d604, 0x4f9dbe3f, 0x094454ab, 0x00000000, 0x2ef78c22, 0x310ade8f);
    Turned(61, 64, 0x094454ab, 0x310ade8f, 0x7327d604, 0x4f9dbe3f, 0x00000000, 0x88cc50ab, 0x624d8cb2);
    Turned(62, 64, 0x4f9dbe3f, 0x624d8cb2, 0x310ade8f, 0x7327d604, 0x00000000, 0x5a4d046e, 0xe484b9d8);
    Turned(63, 64, 0x7327d604, 0xe484b9d8, 0x624d8cb2, 0x310ade8f, 0x00000000, 0xeb66dedf, 0xc08226b3);
    OperationsEnd(Registers(0x310ade8f, 0xc08226b3, 0xe484b9d8, 0x624d8cb2), Abc(), 64);
  }

  lemma AbcOperations()
    ensures Operations(INITIAL, Abc(), 0, 64) ==
            Registers(0x310ade8f, 0xc08226b3, 0xe484b9d8, 0x624d8cb2)
  {
    hide Operations, Operation, Abc;
    Abc00();
    Abc16();
    Abc32();
    Abc48();
    OperationsSplit(INITIAL, Abc(), 0, 16, 64);
    OperationsSplit(Operations(INITIAL, Abc(), 0, 16), Abc(), 16, 32, 64);
    OperationsSplit(Operations(Operations(INITIAL, Abc(), 0, 16), Abc(), 16, 32), Abc(), 32, 48, 64);
  }

  /** The block that "abc" is padded to. */
  function AbcBlock(): (m: seq<Byte>)
    ensures |m| == 64
  {
    [0x61, 0x62, 0x63, 0x80] + seq(52, _ => 0x00) + [0x18] + seq(7, _ => 0x00)
  }

  lemma AbcPadded()
    ensures Padded([0x61, 0x62, 0x63]) == AbcBlock()
  {
    hide Little;
    assert Padding(3) == [0x80] + seq(52, _ => 0x00);
    LittleTwentyFour();
  }

  lemma LittleTwentyFour()
    ensures Little(24, 8) == [0x18] + seq(7, _ => 0x00)
  {
    LittleZero(7);
    LittleStep(24, 7);
  }

  lemma {:induction false} LittleZero(count: nat)
    ensures Little(0, count) == seq(count, _ => 0x00)
    decreases count
  {
    if count > 0 {
      LittleZero(count - 1);
    }
  }

  lemma {:induction false} DecodedAt(bs: seq<Byte>, k: nat)
    requires |bs| % 4 == 0 && 4 * k < |bs|
    ensures Decoded(bs)[k] == WordOf(bs[4 * k..4 * k + 4])
    decreases k
  {
    hide WordOf;
    if k > 0 {
      DecodedAt(bs[4..], k - 1);
      assert bs[4..][4 * (k - 1)..4 * (k - 1) + 4] == bs[4 * k..4 * k + 4];
    }
  }

  lemma AbcDecoded()
    ensures Decoded(AbcBlock()) == Abc()
  {
    hide Decoded, WordOf;
    var m := AbcBlock();
    forall k | 0 <= k < 16
      ensures Decoded(m)[k] == Abc()[k]
    {
      DecodedAt(m, k);
      if k == 0 {
        assert m[0..4] == [0x61, 0x62, 0x63, 0x80];
      } else if k == 14 {
        assert m[56..60] == [0x18, 0x00, 0x00, 0x00];
      } else {
        assert m[4 * k..4 * k + 4] == [0x00, 0x00, 0x00, 0x00];
      }
      AbcWords();
    }
  }

  lemma AbcWords()
    ensures WordOf([0x61, 0x62, 0x63, 0x80]) == 0x80636261
    ensures WordOf([0x18, 0x00, 0x00, 0x00]) == 0x18
    ensures WordOf([0x00, 0x00, 0x00, 0x00]) == 0
  {}

  lemma AbcTransformed()
    ensures Transform(INITIAL, AbcBlock()) == Registers(0x98500190, 0xb04fd23c, 0x7d3f96d6, 0x727fe128)
  {
    hide Operations, AbcBlock, Abc;
    AbcDecoded();
    AbcOperations();
  }

  /** MD5 ("abc") = 900150983cd24fb0d6963f7d28e17f72 */
  lemma AbcDigest()
    ensures Digest([0x61, 0x62, 0x63]) ==
            [0x90, 0x01, 0x50, 0x98, 0x3c, 0xd2, 0x4f, 0xb0, 0xd6, 0x96, 0x3f, 0x7d, 0x28, 0xe1, 0x7f, 0x72]
  {
    hide Transform, Padded, Encoded, AbcBlock;
    AbcPadded();
    AbcTransformed();
    assert AbcBlock()[..64] == AbcBlock() && AbcBlock()[64..] == [];
    assert Absorb(INITIAL, AbcBlock()) == Absorb(Transform(INITIAL, AbcBlock()), []);
    AbcEncoded();
  }

  lemma AbcEncoded()
    ensures Encoded(Words(Registers(0x98500190, 0xb04fd23c, 0x7d3f96d6, 0x727fe128))) ==
            [0x90, 0x01, 0x50, 0x98, 0x3c, 0xd2, 0x4f, 0xb0, 0xd6, 0x96, 0x3f, 0x7d, 0x28, 0xe1, 0x7f, 0x72]
  {
    hide Little, ByteOf;
    WordBytes(0x98500190, 0x90, 0x01, 0x50, 0x98);
    WordBytes(0xb04fd23c, 0x3c, 0xd2, 0x4f, 0xb0);
    WordBytes(0x7d3f96d6, 0xd6, 0x96, 0x3f, 0x7d);
    WordBytes(0x727fe128, 0x28, 0xe1, 0x7f, 0x72);
    EncodedFour(0x98500190, 0xb04fd23c, 0x7d3f96d6, 0x727fe128);
    SmallBytes();
  }

  /** A word's bytes, low-order first. */
  lemma WordBytes(w: Word, b0: nat, b1: nat, b2: nat, b3: nat)
    requires b0 < 0x100 && b1 < 0x100 && b2 < 0x100 && b3 < 0x100
    requires w == b0 + 0x100 * b1 + 0x1_0000 * b2 + 0x100_0000 * b3
    ensures Little(w, 4) == [ByteOf(b0), ByteOf(b1), ByteOf(b2), ByteOf(b3)]
  {
    hide Little, ByteOf;
    LittleNone();
    LittleCarry(b0, b1 + 0x100 * b2 + 0x1_0000 * b3, 3);
    LittleCarry(b1, b2 + 0x100 * b3, 2);
    LittleCarry(b2, b3, 1);
    LittleCarry(b3, 0, 0);
  }

  lemma LittleNone()
    ensures Little(0, 0) == []
  {}

  lemma EncodedNext(w: Word, rest: seq<Word>)
    ensures Encoded([w] + rest) == Little(w, 4) + Encoded(rest)
  {
    hide Little;
    assert ([w] + rest)[1..] == rest;
  }

  lemma EncodedNone()
    ensures Encoded([]) == []
  {}

  lemma EncodedFour(a: Word, b: Word, c: Word, d: Word)
    ensures Encoded([a, b, c, d]) == Little(a, 4) + Little(b, 4) + Little(c, 4) + Little(d, 4)
  {
    hide Little, Encoded;
    EncodedNone();
    EncodedNext(a, [b, c, d]);
    EncodedNext(b, [c, d]);
    EncodedNext(c, [d]);
    EncodedNext(d, []);
    assert [a] + [b, c, d] == [a, b, c, d] && [b] + [c, d] == [b, c, d] && [c] + [d] == [c, d] && [d] + [] == [d];
  }

  lemma SmallBytes()
    ensures ByteOf(0x90) == 0x90 && ByteOf(0x01) == 0x01 && ByteOf(0x50) == 0x50 && ByteOf(0x98) == 0x98
    ensures ByteOf(0x3c) == 0x3c && ByteOf(0xd2) == 0xd2 && ByteOf(0x4f) == 0x4f && ByteOf(0xb0) == 0xb0
    ensures ByteOf(0xd6) == 0xd6 && ByteOf(0x96) == 0x96 && ByteOf(0x3f) == 0x3f && ByteOf(0x7d) == 0x7d
    ensures ByteOf(0x28) == 0x28 && ByteOf(0xe1) == 0xe1 && ByteOf(0x7f) == 0x7f && ByteOf(0x72) == 0x72
  {}
}
