/** Delimited tokens, hex digits and numbers, as the C library's printf, strtok and strtoul see
    them. */
module Text {

  import opened Ez8

  // ----- Hex digits -----

  predicate IsHex(c: char) {
    '0' <= c <= '9' || 'A' <= c <= 'F' || 'a' <= c <= 'f'
  }

  /** The value of a hex digit; 16 for any other character. */
  function HexValue(c: char): (n: nat)
    ensures n <= 16 && (n < 16 <==> IsHex(c))
  {
    if '0' <= c <= '9' then c as nat - '0' as nat
    else if 'A' <= c <= 'F' then c as nat - 'A' as nat + 10
    else if 'a' <= c <= 'f' then c as nat - 'a' as nat + 10
    else 16
  }

  function HexDigit(n: nat, upper: bool := true): (c: char)
    requires n < 16
    ensures IsHex(c) && HexValue(c) == n
  {
    if n < 10 then n as char + '0' else (n - 10) as char + if upper then 'A' else 'a'
  }

  /** "%02X", or "%02x" */
  function Hex2(b: Byte, upper: bool := true): (s: string)
    ensures |s| == 2 && IsHex(s[0]) && IsHex(s[1])
  {
    [HexDigit(NatOf(b) / 16, upper), HexDigit(NatOf(b) % 16, upper)]
  }

  function HexAll(bs: seq<Byte>, upper: bool := true): (s: string)
    ensures |s| == 2 * |bs| && forall i :: 0 <= i < |s| ==> IsHex(s[i])
  {
    if bs == [] then [] else Hex2(bs[0], upper) + HexAll(bs[1..], upper)
  }

  /** Two nibbles to a byte. */
  function Join(hi: nat, lo: nat): Byte
    requires hi < 16 && lo < 16
  {
    ByteOf(16 * hi + lo)
  }

  function Packed(s: string): (bs: seq<Byte>)
    requires |s| % 2 == 0 && forall i :: 0 <= i < |s| ==> IsHex(s[i])
    ensures |bs| == |s| / 2
  {
    if s == [] then [] else [Join(HexValue(s[0]), HexValue(s[1]))] + Packed(s[2..])
  }

  lemma JoinInjective(a: nat, b: nat, c: nat, d: nat)
    requires a < 16 && b < 16 && c < 16 && d < 16
    ensures NatOf(Join(a, b)) == NatOf(Join(c, d)) ==> a == c && b == d
  {
    NatOfByteOf(16 * a + b);
    NatOfByteOf(16 * c + d);
  }

  lemma NatOfJoin(hi: nat, lo: nat)
    ensures hi < 16 && lo < 16 ==> NatOf(Join(hi, lo)) == 16 * hi + lo
  {
    if hi < 16 && lo < 16 {
      NatOfByteOf(16 * hi + lo);
    }
  }

  lemma {:induction false} PackedHex(bs: seq<Byte>, upper: bool := true)
    ensures Packed(HexAll(bs, upper)) == bs
    decreases |bs|
  {
    if bs != [] {
      hide ByteOf, NatOf, HexValue;
      assert HexAll(bs, upper)[2..] == HexAll(bs[1..], upper);
      ByteOfNatOf(bs[0]);
      PackedHex(bs[1..], upper);
    }
  }

  lemma {:induction false} PackedAt(s: string, k: nat)
    requires |s| % 2 == 0 && (forall i :: 0 <= i < |s| ==> IsHex(s[i])) && 2 * k < |s|
    ensures Packed(s)[k] == Join(HexValue(s[2 * k]), HexValue(s[2 * k + 1]))
    decreases |s|
  {
    hide Join, HexValue;
    if k > 0 {
      PackedAt(s[2..], k - 1);
    }
  }

  lemma {:induction false} HexAllConcat(a: seq<Byte>, b: seq<Byte>)
    ensures HexAll(a + b) == HexAll(a) + HexAll(b)
    decreases |a|
  {
    hide Hex2;
    if a == [] {
      assert a + b == b;
    } else {
      assert (a + b)[1..] == a[1..] + b;
      HexAllConcat(a[1..], b);
    }
  }

  // ----- Characters -----

  /** strchr: the position of the first `c`, or the length. */
  function Index(s: string, c: char): (k: nat)
    ensures k <= |s| && (k < |s| ==> s[k] == c) && forall i :: 0 <= i < k ==> s[i] != c
  {
    if s == "" || s[0] == c then 0 else
      var k := Index(s[1..], c);
      assert forall i :: 0 < i < |s| ==> s[i] == s[1..][i - 1];
      1 + k
  }

  lemma {:induction false} IndexIs(s: string, c: char, k: nat)
    requires k <= |s| && (k < |s| ==> s[k] == c) && forall i :: 0 <= i < k ==> s[i] != c
    ensures Index(s, c) == k
  {}

  // ----- Tokens -----

  predicate IsDelimiter(c: char) {
    c == ' ' || c == '\t' || c == '\r' || c == '\n'
  }

  /** strtok: where the first token starts and ends. */
  function TokenStart(line: string): (i: nat)
    ensures i <= |line| && (i < |line| ==> !IsDelimiter(line[i]))
    ensures forall k :: 0 <= k < i ==> IsDelimiter(line[k])
    decreases |line|
  {
    if line == [] || !IsDelimiter(line[0]) then 0 else
      var i := TokenStart(line[1..]);
      assert forall k :: 0 < k <= i ==> line[k..][0..] == line[1..][k - 1..];
      assert forall k :: 0 < k <= i ==> k < |line| ==> line[k] == line[1..][k - 1];
      1 + i
  }

  function TokenLength(s: string): (n: nat)
    ensures n <= |s| && (n < |s| ==> IsDelimiter(s[n]))
    ensures forall k :: 0 <= k < n ==> !IsDelimiter(s[k])
    decreases |s|
  {
    if s == [] || IsDelimiter(s[0]) then 0 else
      var n := TokenLength(s[1..]);
      assert forall k :: 0 < k < |s| ==> s[k] == s[1..][k - 1];
      1 + n
  }

  function Token(line: string): string {
    var i := TokenStart(line);
    line[i..i + TokenLength(line[i..])]
  }

  predicate Digits(s: string) {
    |s| % 2 == 0 && forall i :: 0 <= i < |s| ==> IsHex(s[i])
  }

  lemma {:induction false} TokenStartIs(line: string, k: nat)
    requires k < |line| && !IsDelimiter(line[k]) && forall j :: 0 <= j < k ==> IsDelimiter(line[j])
    ensures TokenStart(line) == k
  {}

  lemma {:induction false} TokenLengthIs(s: string, n: nat)
    requires n <= |s| && (n < |s| ==> IsDelimiter(s[n])) && forall j :: 0 <= j < n ==> !IsDelimiter(s[j])
    ensures TokenLength(s) == n
  {}

  /** strtok: the first token, empty for none, and what follows it. */
  function NextToken(s: string): (r: (string, string))
    ensures |r.0| + |r.1| <= |s| && (r.0 == "" ==> forall k :: 0 <= k < |s| ==> IsDelimiter(s[k]))
  {
    var i := TokenStart(s);
    var n := i + TokenLength(s[i..]);
    (s[i..n], s[n..])
  }

  /** A word between delimiters is the next token. */
  lemma WordIsToken(pad: string, word: string, tail: string)
    requires forall k :: 0 <= k < |pad| ==> IsDelimiter(pad[k])
    requires word != "" && forall k :: 0 <= k < |word| ==> !IsDelimiter(word[k])
    requires tail != "" ==> IsDelimiter(tail[0])
    ensures NextToken(pad + word + tail) == (word, tail)
  {
    hide TokenStart, TokenLength;
    var s := pad + word + tail;
    TokenStartIs(s, |pad|);
    assert s[|pad|..] == word + tail;
    TokenLengthIs(word + tail, |word|);
  }

  lemma NoToken(pad: string)
    requires forall k :: 0 <= k < |pad| ==> IsDelimiter(pad[k])
    ensures NextToken(pad) == ("", "")
  {
    assert TokenStart(pad) == |pad|;
  }

  /** Everything up to a '#'. */
  function Uncommented(line: string): (s: string)
    ensures s <= line && '#' !in s
  {
    if line == "" || line[0] == '#' then ""
    else
      var s := Uncommented(line[1..]);
      assert line == [line[0]] + line[1..];
      [line[0]] + s
  }

  lemma {:induction false} NoComment(line: string)
    requires '#' !in line
    ensures Uncommented(line) == line
    decreases |line|
  {
    if line != "" {
      NoComment(line[1..]);
    }
  }

  lemma {:induction false} UncommentedBehind(a: string, b: string)
    requires '#' !in a
    ensures Uncommented(a + b) == a + Uncommented(b)
    decreases |a|
  {
    if a == "" {
      assert a + b == b;
    } else {
      assert (a + b)[1..] == a[1..] + b;
      UncommentedBehind(a[1..], b);
    }
  }

  /** A token has no delimiter in it, and only characters of its line. */
  lemma TokenIsWord(s: string)
    ensures var word := NextToken(s).0;
      (forall k :: 0 <= k < |word| ==> !IsDelimiter(word[k])) && forall c :: c in word ==> c in s
  {}

  function LowerChar(c: char): char {
    if 'A' <= c <= 'Z' then c + 'a' - 'A' else c
  }

  function Lower(s: string): (l: string)
    ensures |l| == |s|
  {
    if s == "" then "" else [LowerChar(s[0])] + Lower(s[1..])
  }

  /** strcasecmp(a, b) == 0 */
  predicate SameWord(a: string, b: string) {
    Lower(a) == Lower(b)
  }

  /** The letters of the alphabet and their small forms, and nothing else, are taken alike. */
  lemma LowerExactly(c: char)
    ensures c in "ABCDEFGHIJKLMNOPQRSTUVWXYZ" ==>
      exists i :: 0 <= i < 26 && c == "ABCDEFGHIJKLMNOPQRSTUVWXYZ"[i] && LowerChar(c) == "abcdefghijklmnopqrstuvwxyz"[i]
    ensures c !in "ABCDEFGHIJKLMNOPQRSTUVWXYZ" ==> LowerChar(c) == c
  {
    var large, small := "ABCDEFGHIJKLMNOPQRSTUVWXYZ", "abcdefghijklmnopqrstuvwxyz";
    Alphabet();
    if 'A' <= c <= 'Z' {
      var i := c as int - 'A' as int;
      assert large[i] == c;
    }
  }

  lemma Alphabet()
    ensures forall i :: 0 <= i < 26 ==>
      "ABCDEFGHIJKLMNOPQRSTUVWXYZ"[i] as int == 65 + i && "abcdefghijklmnopqrstuvwxyz"[i] as int == 97 + i
  {}

  /** Two words are the same when they are as long and agree, letter by letter, but for case. */
  lemma {:induction false} SameWordExactly(a: string, b: string)
    ensures SameWord(a, b) <==> |a| == |b| && forall i :: 0 <= i < |a| ==> LowerChar(a[i]) == LowerChar(b[i])
    decreases |a|
  {
    hide LowerChar;
    if a != "" && b != "" {
      SameWordExactly(a[1..], b[1..]);
      LowerSplit(a);
      LowerSplit(b);
    }
  }

  lemma LowerSplit(s: string)
    requires s != ""
    ensures Lower(s) == [LowerChar(s[0])] + Lower(s[1..]) && Lower(s)[1..] == Lower(s[1..])
  {}

  lemma SameAsItself(word: string)
    ensures SameWord(word, word)
  {}

  // ----- Numbers -----

  function FromDigits(s: string, base: nat): nat
    requires forall k :: 0 <= k < |s| ==> HexValue(s[k]) < base
  {
    if s == "" then 0 else base * FromDigits(s[..|s| - 1], base) + HexValue(s[|s| - 1])
  }

  predicate InBase(s: string, base: nat) {
    s != "" && forall k :: 0 <= k < |s| ==> HexValue(s[k]) < base
  }

  /** strtoul(s, &tail, 0) with the test that nothing is left in tail; a number beyond a long
      would be cut off by the library. */
  function Number(s: string): Result<int> {
    if s != "" && (s[0] == '-' || s[0] == '+') then
      (match Magnitude(s[1..])
       case Ok(n) => var m: int := n; Ok(if s[0] == '-' then -m else m)
       case Fail(e) => Fail(e))
    else match Magnitude(s)
      case Ok(n) => Ok(n)
      case Fail(e) => Fail(e)
  }

  function Magnitude(s: string): Result<nat> {
    if |s| > 2 && s[0] == '0' && (s[1] == 'x' || s[1] == 'X') then
      if InBase(s[2..], 16) then Ok(FromDigits(s[2..], 16)) else Fail(Unsupported)
    else if s != "" && s[0] == '0' then
      if InBase(s, 8) then Ok(FromDigits(s, 8)) else Fail(Unsupported)
    else if InBase(s, 10) then Ok(FromDigits(s, 10)) else Fail(Unsupported)
  }

  /** Decimal, octal and hexadecimal numbers with and without a sign, and what is none. */
  lemma NumbersSpelled()
    ensures Number("10") == Ok(10) && Number("+255") == Ok(255) && Number("-12") == Ok(-12)
    ensures Number("0") == Ok(0) && Number("010") == Ok(8) && Number("-017") == Ok(-15)
    ensures Number("0x1f") == Ok(31) && Number("0X1F") == Ok(31) && Number("-0x10") == Ok(-16)
    ensures Number("").Fail? && Number("-").Fail? && Number("0x").Fail? && Number("08").Fail?
    ensures Number("1a").Fail? && Number("0xg").Fail? && Number("--1").Fail?
  {
    hide Number, Magnitude;
    Signed("+", "255");
    Signed("-", "12");
    Signed("-", "017");
    Signed("-", "0x10");
    Signed("-", "");
    Signed("-", "-1");
    assert "+" + "255" == "+255" && "-" + "12" == "-12" && "-" + "017" == "-017" && "-" + "0x10" == "-0x10";
    assert "-" + "" == "-" && "-" + "-1" == "--1";
    Unsigned("10");
    Unsigned("0");
    Unsigned("010");
    Unsigned("0x1f");
    Unsigned("0X1F");
    Unsigned("");
    Unsigned("0x");
    Unsigned("08");
    Unsigned("1a");
    Unsigned("0xg");
    Decimals();
    Octals();
    Hexadecimals();
    NoNumbers();
  }

  lemma Signed(sign: string, s: string)
    requires sign == "-" || sign == "+"
    ensures Number(sign + s) == match Magnitude(s)
      case Ok(n) => var m: int := n; Ok(if sign == "-" then -m else m)
      case Fail(e) => Fail(e)
  {
    hide Magnitude;
    assert (sign + s)[1..] == s;
  }

  lemma Unsigned(s: string)
    requires s != "" ==> s[0] != '-' && s[0] != '+'
    ensures Number(s) == match Magnitude(s) case Ok(n) => Ok(n) case Fail(e) => Fail(e)
  {}

  lemma TwoDigits(a: char, b: char, base: nat)
    requires HexValue(a) < base && HexValue(b) < base
    ensures FromDigits([a, b], base) == base * HexValue(a) + HexValue(b)
  {
    OneDigit(a, base);
    assert [a, b][..1] == [a] && [a, b][1] == b;
  }

  lemma OneDigit(a: char, base: nat)
    requires HexValue(a) < base
    ensures FromDigits([a], base) == HexValue(a)
  {
    assert [a][..0] == [];
    assert FromDigits([], base) == 0;
  }

  lemma ThreeDigits(a: char, b: char, c: char, base: nat)
    requires HexValue(a) < base && HexValue(b) < base && HexValue(c) < base
    ensures FromDigits([a, b, c], base) == base * (base * HexValue(a) + HexValue(b)) + HexValue(c)
  {
    assert [a, b, c][..2] == [a, b] && [a, b, c][2] == c;
    TwoDigits(a, b, base);
  }

  lemma Decimals()
    ensures Magnitude("10") == Ok(10) && Magnitude("255") == Ok(255) && Magnitude("12") == Ok(12)
  {
    hide FromDigits;
    TwoDigits('1', '0', 10);
    ThreeDigits('2', '5', '5', 10);
    TwoDigits('1', '2', 10);
  }

  lemma Octals()
    ensures Magnitude("0") == Ok(0) && Magnitude("010") == Ok(8) && Magnitude("017") == Ok(15)
  {
    hide FromDigits;
    OneDigit('0', 8);
    ThreeDigits('0', '1', '0', 8);
    ThreeDigits('0', '1', '7', 8);
  }

  lemma Hexadecimals()
    ensures Magnitude("0x1f") == Ok(31) && Magnitude("0X1F") == Ok(31) && Magnitude("0x10") == Ok(16)
  {
    hide FromDigits;
    TwoDigits('1', 'f', 16);
    TwoDigits('1', 'F', 16);
    TwoDigits('1', '0', 16);
    assert "0x1f"[2..] == ['1', 'f'] && "0X1F"[2..] == ['1', 'F'] && "0x10"[2..] == ['1', '0'];
  }

  lemma NoNumbers()
    ensures Magnitude("").Fail? && Magnitude("0x").Fail? && Magnitude("08").Fail?
    ensures Magnitude("1a").Fail? && Magnitude("0xg").Fail? && Magnitude("-1").Fail?
  {
    hide FromDigits;
    assert "0x"[1] == 'x' && HexValue('x') == 16;
    assert "08"[1] == '8' && HexValue('8') == 8;
    assert "1a"[1] == 'a' && HexValue('a') == 10;
    assert "0xg"[2..] == ['g'] && ['g'][0] == 'g' && HexValue('g') == 16;
    assert "-1"[0] == '-' && HexValue('-') == 16;
  }

  /** "%04X" */
  function HexNumber(n: nat, width: nat := 4): (s: string)
    ensures |s| >= width && (width > 0 ==> s != "") && forall k :: 0 <= k < |s| ==> IsHex(s[k])
    decreases n + width
  {
    if n < 16 && width <= 1 then [HexDigit(n)]
    else HexNumber(n / 16, if width > 0 then width - 1 else 0) + [HexDigit(n % 16)]
  }

  lemma {:induction false} HexNumberRead(n: nat, width: nat)
    ensures FromDigits(HexNumber(n, width), 16) == n
    decreases n + width
  {
    hide HexValue;
    var s := HexNumber(n, width);
    if !(n < 16 && width <= 1) {
      assert s[..|s| - 1] == HexNumber(n / 16, if width > 0 then width - 1 else 0);
      HexNumberRead(n / 16, if width > 0 then width - 1 else 0);
    } else {
      assert s[..0] == "";
    }
  }

  lemma SizeRead(n: nat)
    ensures Number("0x" + HexNumber(n)) == Ok(n)
  {
    hide HexNumber, HexValue, FromDigits;
    var s := "0x" + HexNumber(n);
    assert s[2..] == HexNumber(n) && s[0] == '0' && s[1] == 'x' && |s| >= 6;
    HexNumberRead(n, 4);
  }

  /** "0x%02x " without the space. */
  function ByteWord(b: Byte): (s: string)
    ensures |s| == 4 && s[0] == '0' && s[1] == 'x' && IsHex(s[2]) && IsHex(s[3])
  {
    "0x" + Hex2(b, false)
  }

  lemma ByteRead(b: Byte)
    ensures Number(ByteWord(b)) == Ok(NatOf(b))
  {
    hide HexValue, IsHex, NatOf;
    var s := ByteWord(b);
    var t := s[2..];
    assert t == Hex2(b, false);
    assert t[..1] == [t[0]] && t[..1][..0] == "";
    assert FromDigits(t, 16) == 16 * FromDigits(t[..1], 16) + HexValue(t[1]);
    assert FromDigits(t[..1], 16) == 16 * FromDigits("", 16) + HexValue(t[0]);
  }
}
