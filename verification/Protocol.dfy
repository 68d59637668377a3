/** The texts client and server exchange for READ and WRITE, and what each makes of the other's
    (server.cpp and ocd_tcpip.cpp). */
module Protocol {

  import opened Ez8
  import opened Text
  import opened Sockstream

  // ----- The texts -----

  /** A row of at most eight byte words, and the rows of `data` with the blank line after them. */
  function Row(data: seq<Byte>): string {
    if data == [] then "" else Item(data[0]) + Row(data[1..])
  }

  /** "0x%02x " */
  function Item(b: Byte): (s: string)
    ensures |s| == 5
  {
    ByteWord(b) + " "
  }

  function Rows(data: seq<Byte>): string
    decreases |data|
  {
    if data == [] then "\r\n"
    else if |data| <= 8 then Row(data) + "\r\n" + Rows([])
    else Row(data[..8]) + "\r\n" + Rows(data[8..])
  }

  /** What client and server print byte by byte: a line break before every eighth byte. */
  function Printing(data: seq<Byte>, i: nat): string
    requires i <= |data|
    decreases |data| - i
  {
    if i == |data| then "\r\n\r\n"
    else if i % 8 == 0 then "\r\n" + (Item(data[i]) + Printing(data, i + 1))
    else Item(data[i]) + Printing(data, i + 1)
  }

  /** Part of a row. */
  lemma {:induction false} PrintingRow(data: seq<Byte>, i: nat, j: nat)
    requires i <= j <= |data| && forall k :: i <= k < j ==> k % 8 != 0
    ensures Printing(data, i) == Row(data[i..j]) + Printing(data, j)
    decreases j - i
  {
    hide Item, Row;
    RowStep(data, i, j);
    if i < j {
      PrintingRow(data, i + 1, j);
      Regroup(Item(data[i]), Row(data[i + 1..j]), Printing(data, j));
    }
  }

  lemma RowStep(data: seq<Byte>, i: nat, j: nat)
    requires i <= j <= |data|
    ensures Row(data[i..j]) == if i < j then Item(data[i]) + Row(data[i + 1..j]) else ""
  {
    hide Item;
    if i < j {
      assert data[i..j][1..] == data[i + 1..j];
    }
  }

  /** The printed text is the rows, after a line break. */
  lemma {:induction false} PrintingRows(data: seq<Byte>, i: nat)
    requires i < |data| && i % 8 == 0
    ensures Printing(data, i) == "\r\n" + Rows(data[i..])
    decreases |data| - i
  {
    hide ByteWord, Printing, Row;
    var rest := data[i..];
    var j := if |rest| <= 8 then |data| else i + 8;
    var row := data[i..j];
    assert rest[..j - i] == row && rest[j - i..] == data[j..];
    PrintingRow(data, i + 1, j);
    FirstOfRow(data, i, j);
    if j < |data| {
      PrintingRows(data, j);
      Regroup(Row(row), "\r\n", Rows(data[j..]));
    } else {
      assert row == rest;
      PrintingEnd(data);
      Regroup(Row(row), "\r\n", Rows([]));
    }
  }

  lemma PrintingEnd(data: seq<Byte>)
    ensures Printing(data, |data|) == "\r\n" + Rows([])
  {}

  lemma FirstOfRow(data: seq<Byte>, i: nat, j: nat)
    requires i < j <= |data| && i % 8 == 0
    requires Printing(data, i + 1) == Row(data[i + 1..j]) + Printing(data, j)
    ensures Printing(data, i) == "\r\n" + (Row(data[i..j]) + Printing(data, j))
  {
    hide Item, Row;
    RowStep(data, i, j);
    Regroup(Item(data[i]), Row(data[i + 1..j]), Printing(data, j));
  }

  // ----- Taking the texts apart -----

  datatype Collected =
    | Done(data: seq<Byte>, stream: string) | Closed | BadData(stream: string) | TooMuch(stream: string)

  /** client_write: bytes from the words of `rest`, then of the lines of `stream`, up to a blank line. */
  function Collect(rest: string, stream: string, data: seq<Byte>): Collected
    decreases |stream|, |rest|
  {
    var (word, more) := NextToken(rest);
    if word != "" then
      if |data| >= 0x10000 then TooMuch(stream)
      else match Number(word)
        case Ok(n) => Collect(more, stream, data + [ByteOf(n % 256)])
        case Fail(_) => BadData(stream)
    else
      var k := Newline(stream);
      if k == |stream| then Closed
      else if NextToken(stream[..k + 1]).0 == "" then Done(data, stream[k + 1..])
      else Collect(stream[..k + 1], stream[k + 1..], data)
  }

  /** `NullWord` is the call of strcasecmp with a null pointer. */
  datatype Received =
    | Data(data: seq<Byte>, stream: string) | Lost | BadReply | WrongSize | Refused(stream: string) | NullWord

  /** ocd_tcpip::read: `size` bytes from the words of `rest`, then of the lines of `stream`. */
  function Receive(rest: string, stream: string, size: nat, data: seq<Byte>): Received
    decreases |stream|, |rest|
  {
    if |data| >= size then Data(data, stream)
    else
      var (word, more) := NextToken(rest);
      if word != "" then
        match Number(word)
        case Ok(n) => Receive(more, stream, size, data + [ByteOf(n % 256)])
        case Fail(_) => BadReply
      else
        var k := Newline(stream);
        if k == |stream| then Lost
        else
          var line := Uncommented(stream[..k + 1]);
          if NextToken(line).0 == "" then WrongSize
          else Receive(line, stream[k + 1..], size, data)
  }

  // ----- Rows are read back -----

  lemma {:induction false} RowText(row: seq<Byte>)
    ensures |Row(row)| == 5 * |row|
    ensures '\n' !in Row(row) && '#' !in Row(row)
  {
    if row != [] {
      RowText(row[1..]);
    }
  }

  lemma NoPad(a: string, b: string)
    ensures "" + a + b == a + b
  {
    assert "" + a == a;
  }

  lemma Respell(pad: string, word: string, rest: string)
    ensures pad + (word + " " + rest) + "\r\n" == pad + word + (" " + rest + "\r\n")
  {
    var text := pad + (word + " " + rest) + "\r\n";
    assert text[..|pad| + |word|] == pad + word;
    assert text[|pad| + |word|..] == " " + rest + "\r\n";
  }

  lemma WordChars(b: Byte)
    ensures forall k :: 0 <= k < |ByteWord(b)| ==> !IsDelimiter(ByteWord(b)[k])
  {}

  /** The first word of a row, after `pad`. */
  lemma RowWord(pad: string, row: seq<Byte>)
    requires row != [] && (pad == "" || pad == " ")
    ensures NextToken(pad + Row(row) + "\r\n") == (ByteWord(row[0]), " " + Row(row[1..]) + "\r\n")
    ensures Number(ByteWord(row[0])) == Ok(NatOf(row[0])) && ByteOf(NatOf(row[0]) % 256) == row[0]
  {
    hide NextToken, Number, ByteOf, NatOf, ByteWord;
    var word := ByteWord(row[0]);
    var tail := " " + Row(row[1..]) + "\r\n";
    assert Row(row) == word + " " + Row(row[1..]);
    Respell(pad, word, Row(row[1..]));
    WordChars(row[0]);
    WordIsToken(pad, word, tail);
    ByteRead(row[0]);
    ByteOfNatOf(row[0]);
  }

  lemma {:induction false} CollectRow(pad: string, row: seq<Byte>, stream: string, data: seq<Byte>)
    requires (pad == "" || pad == " ") && |data| + |row| <= 0x10000
    ensures Collect(pad + Row(row) + "\r\n", stream, data) == Collect("", stream, data + row)
    decreases |row|
  {
    hide NextToken, Number, ByteOf, NatOf, ByteWord, Newline;
    if row == [] {
      NoToken(pad + "" + "\r\n");
      NoToken("");
      assert data + row == data;
    } else {
      RowWord(pad, row);
      CollectRow(" ", row[1..], stream, data + [row[0]]);
      assert (data + [row[0]]) + row[1..] == data + row;
    }
  }

  lemma {:induction false} ReceiveRow(pad: string, row: seq<Byte>, stream: string, size: nat, data: seq<Byte>)
    requires (pad == "" || pad == " ") && |data| + |row| <= size
    ensures Receive(pad + Row(row) + "\r\n", stream, size, data) == Receive("", stream, size, data + row)
    decreases |row|
  {
    hide NextToken, Number, ByteOf, NatOf, ByteWord, Newline;
    if row == [] {
      NoToken(pad + "" + "\r\n");
      NoToken("");
      assert data + row == data;
    } else {
      RowWord(pad, row);
      ReceiveRow(" ", row[1..], stream, size, data + [row[0]]);
      assert (data + [row[0]]) + row[1..] == data + row;
    }
  }

  function FirstRow(data: seq<Byte>): seq<Byte> {
    if |data| <= 8 then data else data[..8]
  }

  /** The next line of some rows. */
  lemma RowsLine(data: seq<Byte>, after: string)
    ensures var row := FirstRow(data);
      var line := Row(row) + "\r\n"; var k := |line| - 1; var stream := Rows(data) + after;
      && Newline(stream) == k && k < 42 && k < |stream| && stream[..k + 1] == line && '#' !in line
      && stream[k + 1..] == (if data == [] then after else Rows(data[|row|..]) + after)
      && (NextToken(line).0 == "" <==> data == [])
  {
    hide ByteWord, Newline, NextToken, Row, Rows, FirstRow;
    var row := FirstRow(data);
    var line := Row(row) + "\r\n";
    RowText(row);
    RowsAre(data);
    var rest := if data == [] then "" else Rows(data[|row|..]);
    Regroup(line, rest, after);
    assert rest + after == if data == [] then after else Rows(data[|row|..]) + after;
    LineFirst(line, rest + after);
    if data == [] {
      NoToken(line);
    } else {
      RowWord("", row);
      NoPad(Row(row), "\r\n");
    }
  }

  lemma LineFirst(line: string, rest: string)
    requires line != "" && line[|line| - 1] == '\n' && '\n' !in line[..|line| - 1]
    ensures Newline(line + rest) == |line| - 1 && (line + rest)[..|line|] == line && (line + rest)[|line|..] == rest
  {
    assert forall i :: 0 <= i < |line| - 1 ==> (line + rest)[i] == line[..|line| - 1][i];
    NewlineIs(line + rest, |line| - 1);
  }

  lemma RowsAre(data: seq<Byte>)
    ensures var row := FirstRow(data);
      && |row| <= |data| && |row| <= 8 && (row == [] <==> data == [])
      && Rows(data) == Row(row) + "\r\n" + (if data == [] then "" else Rows(data[|row|..]))
      && (data == [] ==> Row(row) == "") && row == data[..|row|]
  {
    hide ByteWord;
    assert data[|data|..] == [];
  }

  lemma RowAndRest(data: seq<Byte>, d: seq<Byte>, n: nat)
    requires n <= |d|
    ensures (data + d[..n]) + d[n..] == data + d
  {}

  /** The server recovers the bytes of the printed rows and takes the blank line with them. */
  lemma {:induction false} CollectRows(d: seq<Byte>, after: string, data: seq<Byte>)
    requires |data| + |d| <= 0x10000
    ensures Collect("", Rows(d) + after, data) == Done(data + d, after)
    decreases |d|
  {
    hide ByteWord, Newline, NextToken, Row, Rows, FirstRow, Number;
    RowsLine(d, after);
    NoToken("");
    if d == [] {
      assert data + d == data;
    } else {
      var row := FirstRow(d);
      RowsAre(d);
      var stream := Rows(d[|row|..]) + after;
      CollectRow("", row, stream, data);
      NoPad(Row(row), "\r\n");
      CollectRows(d[|row|..], after, data + row);
      RowAndRest(data, d, |row|);
    }
  }

  /** The client recovers the bytes of the printed rows and leaves the blank line. */
  lemma {:induction false} ReceiveRows(d: seq<Byte>, after: string, size: nat, data: seq<Byte>)
    requires |data| + |d| == size
    ensures Receive("", Rows(d) + after, size, data) == Data(data + d, "\r\n" + after)
    decreases |d|
  {
    hide ByteWord, Newline, NextToken, Row, Rows, FirstRow, Number;
    if d == [] {
      RowsAre(d);
      assert Rows(d) == "\r\n";
      assert data + d == data;
    } else {
      RowsLine(d, after);
      NoToken("");
      var row := FirstRow(d);
      RowsAre(d);
      var stream := Rows(d[|row|..]) + after;
      NoComment(Row(row) + "\r\n");
      ReceiveRow("", row, stream, size, data);
      NoPad(Row(row), "\r\n");
      ReceiveRows(d[|row|..], after, size, data + row);
      RowAndRest(data, d, |row|);
    }
  }

  lemma {:induction false} RowsAreShort(d: seq<Byte>, after: string)
    requires ShortLines(after)
    ensures ShortLines(Rows(d) + after)
    decreases |d|
  {
    hide ByteWord, Newline, NextToken, Row, Rows, FirstRow;
    RowsLine(d, after);
    RowsAre(d);
    if d != [] {
      RowsAreShort(d[|FirstRow(d)|..], after);
    }
  }

  // ----- Requests and replies -----

  /** client_flush: skip lines up to one without a word. */
  function FlushLines(stream: string): Option<string>
    decreases |stream|
  {
    var k := Newline(stream);
    if k == |stream| then None
    else if NextToken(Uncommented(stream[..k + 1])).0 == "" then Some(stream[k + 1..])
    else FlushLines(stream[k + 1..])
  }

  /** What a request does to the server: the stream left, the bytes written to the link, the
      link's remaining input, and the reply. */
  datatype Effect = Effect(alive: bool, stream: string, written: seq<seq<Byte>>, input: seq<Byte>, reply: string)

  function Hangup(input: seq<Byte>): Effect {
    Effect(false, "", [], input, "")
  }

  function WriteEffect(rest: string, stream: string, linkUp: bool, input: seq<Byte>): Effect {
    match Collect(rest, stream, [])
    case Closed => Hangup(input)
    case Done(data, after) =>
      if linkUp then Effect(true, after, [data], input, "+OK\r\n")
      else Effect(true, after, [], input, "-ERR #link down\r\n")
    case BadData(after) => Recover(after, input, "-ERR #invalid data\r\n")
    case TooMuch(after) => Recover(after, input, "-ERR size out-of-range\r\n")
  }

  function Recover(stream: string, input: seq<Byte>, reply: string): Effect {
    match FlushLines(stream)
    case None => Hangup(input)
    case Some(after) => Effect(true, after, [], input, reply)
  }

  /** What ss_printf keeps of a string. */
  function Kept(text: string): string {
    if |text| < BUFSIZ then text else ""
  }

  /** client_read */
  function ReadEffect(rest: string, stream: string, linkUp: bool, input: seq<Byte>): Effect {
    var word := NextToken(rest).0;
    if word == "" then Effect(true, stream, [], input, "-ERR #size needed\r\n")
    else match Number(word)
      case Fail(_) => Effect(true, stream, [], input, Kept("-ERR #invalid number '" + word + "'\r\n"))
      case Ok(n) =>
        if !linkUp then Effect(true, stream, [], input, "-ERR #link down\r\n")
        else if !(0 <= n <= |input|) then Effect(true, stream, [], input, "-ERR #read failed\r\n")
        else Effect(true, stream, [], input[n..], "+OK " + Printing(input[..n], 0))
  }

  /** One request line of service_client, for an authenticated client. */
  function RequestEffect(pending: string, linkUp: bool, input: seq<Byte>): Effect {
    var k := Newline(pending);
    if k == |pending| then Hangup(input)
    else
      var stream := pending[k + 1..];
      var (word, rest) := NextToken(Uncommented(pending[..k + 1]));
      if word == "" then Effect(true, stream, [], input, "")
      else if SameWord(word, "read") then ReadEffect(rest, stream, linkUp, input)
      else if SameWord(word, "write") then WriteEffect(rest, stream, linkUp, input)
      else Effect(true, stream, [], input, "-ERR #invalid command\r\n")
  }

  datatype Answer = Accepted(stream: string) | Rejected(stream: string) | Broken

  /** The client's reading of the reply to a WRITE: blank lines are skipped. */
  function AnswerOf(stream: string): Answer
    decreases |stream|
  {
    var k := Newline(stream);
    if k == |stream| then Broken
    else
      var (word, rest) := NextToken(Uncommented(stream[..k + 1]));
      if word == "" then AnswerOf(stream[k + 1..]) else Judged(word, rest, stream[k + 1..])
  }

  function Judged(word: string, rest: string, stream: string): Answer {
    if NextToken(rest).0 != "" then Broken
    else if SameWord(word, "+OK") then Accepted(stream)
    else if SameWord(word, "-ERR") then Rejected(stream)
    else Broken
  }

  /** The client's reading of the reply to a READ: a blank line first is not expected. */
  function ReadReply(stream: string, size: nat): Received {
    var k := Newline(stream);
    if k == |stream| then Lost
    else
      var (word, rest) := NextToken(Uncommented(stream[..k + 1]));
      if word == "" then NullWord
      else if SameWord(word, "-ERR") then Refused(stream[k + 1..])
      else if !SameWord(word, "+OK") then BadReply
      else Receive(rest, stream[k + 1..], size, [])
  }

  // ----- Round trips -----

  predicate Plain(word: string) {
    word != "" && |word| < 40 && forall k :: 0 <= k < |word| ==> !IsDelimiter(word[k]) && word[k] != '#'
  }

  lemma PlainWords()
    ensures Plain("WRITE") && Plain("+OK")
  {}

  /** The first line of a request or reply: a word, a space and a line break. */
  lemma FirstLine(word: string, rest: string)
    requires Plain(word)
    ensures var line := word + " \r\n"; var k := |line| - 1;
      && Newline(line + rest) == k && (line + rest)[..k + 1] == line && (line + rest)[k + 1..] == rest
      && Uncommented(line) == line && NextToken(line) == (word, " \r\n")
  {
    hide NextToken, Newline, Uncommented;
    var line := word + " \r\n";
    assert '\n' !in word;
    assert line[..|line| - 1] == word + " \r";
    LineFirst(line, rest);
    NoComment(line);
    WordIsToken("", word, " \r\n");
    assert "" + word + " \r\n" == line;
  }

  /** The printed bytes, after the word they follow. */
  lemma PrintedAfter(word: string, data: seq<Byte>, after: string)
    requires data != [] && Plain(word)
    ensures var text := word + " " + Printing(data, 0) + after; var k := |word| + 2;
      && Newline(text) == k < |text| && text[k + 1..] == Rows(data) + after
      && NextToken(Uncommented(text[..k + 1])) == (word, " \r\n")
  {
    hide NextToken, Newline, Uncommented, Printing, Rows, Plain;
    PrintingRows(data, 0);
    assert data[0..] == data;
    assert word + " " + ("\r\n" + Rows(data)) + after == word + " \r\n" + (Rows(data) + after);
    FirstLine(word, Rows(data) + after);
  }

  /** The server hands to the link exactly the bytes the client printed, and takes nothing more. */
  lemma WriteArrives(data: seq<Byte>, after: string, input: seq<Byte>)
    requires 0 < |data| <= 0x10000
    ensures RequestEffect("WRITE " + Printing(data, 0) + after, true, input) ==
            Effect(true, after, [data], input, "+OK\r\n")
  {
    hide NextToken, Newline, Uncommented, Printing, Rows, Collect, SameWord, FlushLines, ReadEffect, Plain;
    PlainWords();
    PrintedAfter("WRITE", data, after);
    assert "WRITE" + " " == "WRITE ";
    CollectPad(" \r\n", Rows(data) + after, []);
    CollectRows(data, after, []);
    assert [] + data == data;
    SpelledWrite();
  }

  lemma SpelledWrite()
    ensures SameWord("WRITE", "write") && !SameWord("WRITE", "read")
  {
    assert Lower("WRITE")[0] == 'w' && Lower("read")[0] == 'r';
    assert "WRITE"[1..] == "RITE" && "RITE"[1..] == "ITE" && "ITE"[1..] == "TE" && "TE"[1..] == "E" && "E"[1..] == "";
    assert "write"[1..] == "rite" && "rite"[1..] == "ite" && "ite"[1..] == "te" && "te"[1..] == "e" && "e"[1..] == "";
  }

  lemma SpelledRead()
    ensures SameWord("READ", "read")
  {
    assert "READ"[1..] == "EAD" && "EAD"[1..] == "AD" && "AD"[1..] == "D" && "D"[1..] == "";
    assert "read"[1..] == "ead" && "ead"[1..] == "ad" && "ad"[1..] == "d" && "d"[1..] == "";
  }

  lemma OkIsNotErr()
    ensures !SameWord("+OK", "-ERR") && !SameWord("-ERR", "+OK")
  {
    assert |Lower("+OK")| == 3 && |Lower("-ERR")| == 4;
  }

  lemma CollectPad(pad: string, stream: string, data: seq<Byte>)
    requires forall k :: 0 <= k < |pad| ==> IsDelimiter(pad[k])
    ensures Collect(pad, stream, data) == Collect("", stream, data)
  {
    hide NextToken, Number;
    NoToken(pad);
    NoToken("");
  }

  lemma ReceivePad(pad: string, stream: string, size: nat, data: seq<Byte>)
    requires forall k :: 0 <= k < |pad| ==> IsDelimiter(pad[k])
    ensures Receive(pad, stream, size, data) == Receive("", stream, size, data)
  {
    hide NextToken, Number;
    NoToken(pad);
    NoToken("");
  }

  /** The client gets exactly the bytes the server printed and leaves exactly one blank line. */
  lemma ReadArrives(data: seq<Byte>, after: string)
    requires data != []
    ensures ReadReply("+OK " + Printing(data, 0) + after, |data|) == Data(data, "\r\n" + after)
  {
    hide NextToken, Newline, Uncommented, Printing, Rows, Receive, SameWord, Plain;
    PlainWords();
    PrintedAfter("+OK", data, after);
    assert "+OK" + " " == "+OK ";
    ReceivePad(" \r\n", Rows(data) + after, |data|, []);
    ReceiveRows(data, after, |data|, []);
    assert [] + data == data;
    OkIsNotErr();
    SameAsItself("+OK");
  }

  /** That blank line is what the next READ trips over. */
  lemma SecondRead(after: string, size: nat)
    ensures ReadReply("\r\n" + after, size) == NullWord
  {
    hide NextToken, Newline, Uncommented;
    LineFirst("\r\n", after);
    NoComment("\r\n");
    NoToken("\r\n");
  }

  function SizeWord(size: nat): string {
    "0x" + HexNumber(size)
  }

  lemma {:induction false} HexNumberLength(n: nat, width: nat, digits: nat)
    requires width <= digits && digits > 0 && n < Power16(digits)
    ensures |HexNumber(n, width)| <= digits
    decreases digits
  {
    assert Power16(digits) == 16 * Power16(digits - 1);
    if digits > 1 && !(n < 16 && width <= 1) {
      HexNumberLength(n / 16, if width > 0 then width - 1 else 0, digits - 1);
    }
  }

  function Power16(n: nat): nat {
    if n == 0 then 1 else 16 * Power16(n - 1)
  }

  /** The server reads back the size the client printed and answers with that many bytes. */
  lemma SizeArrives(size: nat, after: string, input: seq<Byte>)
    requires size <= |input| && size <= 0x10000
    ensures RequestEffect("READ " + SizeWord(size) + "\r\n" + after, true, input) ==
            Effect(true, after, [], input[size..], "+OK " + Printing(input[..size], 0))
  {
    hide NextToken, Newline, Uncommented, Printing, SameWord, WriteEffect, Number, HexNumber, SizeWord;
    var size' := SizeWord(size);
    var line := "READ " + size' + "\r\n";
    SizeWordPlain(size);
    assert line[..|line| - 1] == "READ " + size' + "\r";
    LineFirst(line, after);
    NoComment(line);
    WordIsToken("", "READ", " " + size' + "\r\n");
    assert "" + "READ" + (" " + size' + "\r\n") == line;
    WordIsToken(" ", size', "\r\n");
    SpelledRead();
  }

  lemma SizeWordPlain(size: nat)
    ensures var word := SizeWord(size);
      word != "" && Number(word) == Ok(size) && forall k :: 0 <= k < |word| ==> !IsDelimiter(word[k]) && word[k] != '#'
  {
    SizeRead(size);
  }

  // ----- Refusals -----

  /** The client reads an error with a comment as a refusal by the link. */
  lemma ErrorRead(comment: string, after: string, size: nat)
    requires '\n' !in comment
    ensures var reply := "-ERR #" + comment + "\r\n";
      AnswerOf(reply + after) == Rejected(after) && ReadReply(reply + after, size) == Refused(after)
  {
    hide NextToken, Newline, Uncommented, SameWord;
    var reply := "-ERR #" + comment + "\r\n";
    assert reply[..|reply| - 1] == "-ERR #" + comment + "\r";
    LineFirst(reply, after);
    UncommentedBehind("-ERR ", "#" + comment + "\r\n");
    assert "-ERR " + ("#" + comment + "\r\n") == reply;
    assert Uncommented("#" + comment + "\r\n") == "" by { CommentOnly("#" + comment + "\r\n"); }
    assert Uncommented(reply) == "-ERR ";
    WordIsToken("", "-ERR", " ");
    assert "" + "-ERR" + " " == "-ERR ";
    NoToken(" ");
    OkIsNotErr();
    SameAsItself("-ERR");
  }

  lemma CommentOnly(text: string)
    requires text != "" && text[0] == '#'
    ensures Uncommented(text) == ""
  {}

  lemma ErrorIsShort(reply: string)
    requires 2 <= |reply| < 100 && reply[|reply| - 1] == '\n' && '\n' !in reply[..|reply| - 1]
    ensures ShortLines(reply)
  {
    hide Newline;
    LineFirst(reply, "");
    assert reply + "" == reply;
    assert ShortLines("") by { NothingIsShort(); }
  }

  lemma NothingIsShort()
    ensures ShortLines("")
  {}

  /** A write while the link is down reaches nothing, and the client is told so. */
  lemma WriteWhileDown(data: seq<Byte>, after: string, input: seq<Byte>)
    requires 0 < |data| <= 0x10000
    ensures var e := RequestEffect("WRITE " + Printing(data, 0) + after, false, input);
      e == Effect(true, after, [], input, e.reply) && AnswerOf(e.reply) == Rejected("") && ShortLines(e.reply)
  {
    hide NextToken, Newline, Uncommented, Printing, Rows, Collect, SameWord, FlushLines, ReadEffect, Plain, AnswerOf;
    hide ShortLines;
    PlainWords();
    PrintedAfter("WRITE", data, after);
    assert "WRITE" + " " == "WRITE ";
    CollectPad(" \r\n", Rows(data) + after, []);
    CollectRows(data, after, []);
    assert [] + data == data;
    SpelledWrite();
    LinkDownRead();
  }

  lemma LinkDownRead()
    ensures AnswerOf("-ERR #link down\r\n") == Rejected("") && ShortLines("-ERR #link down\r\n")
  {
    hide AnswerOf, ReadReply;
    ErrorRead("link down", "", 1);
    assert "-ERR #" + "link down" + "\r\n" + "" == "-ERR #link down\r\n";
    ErrorIsShort("-ERR #link down\r\n");
  }

  /** So does a read while the link is down or has too few bytes. */
  lemma ReadRefused(size: nat, after: string, linkUp: bool, input: seq<Byte>)
    requires size <= 0x10000 && !(linkUp && size <= |input|)
    ensures var e := RequestEffect("READ " + SizeWord(size) + "\r\n" + after, linkUp, input);
      e == Effect(true, after, [], input, e.reply) && ReadReply(e.reply, size) == Refused("") && ShortLines(e.reply)
  {
    hide NextToken, Printing, Number, ReadReply, AnswerOf, ShortLines, RequestEffect, SizeWord, Plain;
    SizeIsPlain(size);
    ReadRequest(SizeWord(size), after, linkUp, input);
    LinkReplies(size);
  }

  lemma SizeIsPlain(size: nat)
    requires size <= 0x10000
    ensures Plain(SizeWord(size)) && SizeWord(size) != "" && Number(SizeWord(size)) == Ok(size)
  {
    hide HexNumber, Number;
    assert Power16(1) == 16 && Power16(2) == 256 && Power16(3) == 0x1000 && Power16(4) == 0x1_0000;
    HexNumberLength(size, 4, 5);
    SizeWordPlain(size);
  }

  lemma LinkReplies(size: nat)
    ensures ReadReply("-ERR #link down\r\n", size) == Refused("") && ShortLines("-ERR #link down\r\n")
    ensures ReadReply("-ERR #read failed\r\n", size) == Refused("") && ShortLines("-ERR #read failed\r\n")
  {
    hide AnswerOf, ReadReply, ShortLines;
    ErrorReply("link down", size);
    ErrorReply("read failed", size);
    assert "-ERR #" + "link down" + "\r\n" == "-ERR #link down\r\n";
    assert "-ERR #" + "read failed" + "\r\n" == "-ERR #read failed\r\n";
  }

  /** More than 64K bytes: the rest of the rows is skipped, nothing is written, and the client
      takes the reply for garbage. */
  lemma WriteTooMuch(data: seq<Byte>, after: string, linkUp: bool, input: seq<Byte>)
    requires |data| > 0x10000
    ensures var e := RequestEffect("WRITE " + Printing(data, 0) + after, linkUp, input);
      e == Effect(true, after, [], input, e.reply) && AnswerOf(e.reply) == Broken && ShortLines(e.reply)
  {
    hide NextToken, Newline, Uncommented, Printing, Rows, Collect, SameWord, FlushLines, ReadEffect, Plain, AnswerOf;
    PlainWords();
    PrintedAfter("WRITE", data, after);
    assert "WRITE" + " " == "WRITE ";
    CollectPad(" \r\n", Rows(data) + after, []);
    var rest := CollectOverflows(data, after, []);
    FlushRows(rest, after);
    SpelledWrite();
    GarbageRead();
  }

  lemma GarbageRead()
    ensures AnswerOf("-ERR size out-of-range\r\n") == Broken && ShortLines("-ERR size out-of-range\r\n")
  {
    hide AnswerOf;
    GarbageAfter("-ERR", "size", " out-of-range\r\n");
    assert "-ERR" + " " + "size" + " out-of-range\r\n" == "-ERR size out-of-range\r\n";
    ErrorIsShort("-ERR size out-of-range\r\n");
  }

  lemma GarbageAfter(word: string, garbage: string, tail: string)
    requires Plain(word) && Plain(garbage) && |tail| > 1 && IsDelimiter(tail[0]) && tail[|tail| - 1] == '\n'
    requires '\n' !in tail[..|tail| - 1] && '#' !in tail
    ensures AnswerOf(word + " " + garbage + tail) == Broken
  {
    hide NextToken, Newline, Uncommented, SameWord, Plain;
    var line := word + " " + garbage + tail;
    GarbageWords(word, garbage, tail);
    assert line + "" == line;
  }

  lemma GarbageWords(word: string, garbage: string, tail: string)
    requires Plain(word) && Plain(garbage) && |tail| > 1 && IsDelimiter(tail[0]) && tail[|tail| - 1] == '\n'
    requires '\n' !in tail[..|tail| - 1] && '#' !in tail
    ensures var line := word + " " + garbage + tail;
      && Newline(line + "") == |line| - 1 && (line + "")[..|line|] == line
      && word != "" && NextToken(Uncommented(line)) == (word, " " + garbage + tail)
      && garbage != "" && NextToken(" " + garbage + tail).0 == garbage
  {
    hide NextToken, Newline, Uncommented;
    var line := word + " " + garbage + tail;
    assert line[..|line| - 1] == word + " " + garbage + tail[..|tail| - 1];
    assert '\n' !in word && '\n' !in garbage;
    LineFirst(line, "");
    assert '#' !in line;
    NoComment(line);
    WordIsToken("", word, " " + garbage + tail);
    assert "" + word + (" " + garbage + tail) == line;
    WordIsToken(" ", garbage, tail);
  }

  /** The 65537th byte is met at the start of a row. */
  lemma {:induction false} CollectOverflows(d: seq<Byte>, after: string, data: seq<Byte>) returns (rest: seq<Byte>)
    requires |data| <= 0x10000 < |data| + |d| && |data| % 8 == 0
    ensures Collect("", Rows(d) + after, data) == TooMuch(Rows(rest) + after)
    decreases |d|
  {
    hide ByteWord, Newline, NextToken, Row, Rows, FirstRow, Number;
    RowsLine(d, after);
    NoToken("");
    var row := FirstRow(d);
    RowsAre(d);
    rest := d[|row|..];
    NoPad(Row(row), "\r\n");
    RowWord("", row);
    if |data| < 0x10000 {
      assert |row| == 8 by { RowSize(d); }
      CollectRow("", row, Rows(rest) + after, data);
      rest := CollectOverflows(d[8..], after, data + row);
    }
  }

  lemma RowSize(d: seq<Byte>)
    ensures |FirstRow(d)| == if |d| <= 8 then |d| else 8
  {}

  lemma {:induction false} FlushRows(d: seq<Byte>, after: string)
    ensures FlushLines(Rows(d) + after) == Some(after)
    decreases |d|
  {
    hide ByteWord, Newline, NextToken, Row, Rows, FirstRow, Uncommented;
    RowsLine(d, after);
    RowsAre(d);
    NoComment(Row(FirstRow(d)) + "\r\n");
    if d != [] {
      FlushRows(d[|FirstRow(d)|..], after);
    }
  }

  /** The rows without the blank line that ends them. */
  function RowLines(d: seq<Byte>): string
    decreases |d|
  {
    if d == [] then "" else Row(FirstRow(d)) + "\r\n" + RowLines(d[|FirstRow(d)|..])
  }

  lemma {:induction false} CollectLines(d: seq<Byte>, rest: string, data: seq<Byte>)
    requires |data| + |d| <= 0x10000
    ensures Collect("", RowLines(d) + rest, data) == Collect("", rest, data + d)
    decreases |d|
  {
    hide ByteWord, Newline, NextToken, Row, Rows, FirstRow, Number;
    if d == [] {
      assert RowLines(d) + rest == rest && data + d == data;
    } else {
      var row := FirstRow(d);
      RowsAre(d);
      RowText(row);
      var line := Row(row) + "\r\n";
      var stream := RowLines(d[|row|..]) + rest;
      Regroup(line, RowLines(d[|row|..]), rest);
      LineFirst(line, stream);
      RowWord("", row);
      NoPad(Row(row), "\r\n");
      NoToken("");
      CollectRow("", row, stream, data);
      CollectLines(d[|row|..], rest, data + row);
      RowAndRest(data, d, |row|);
    }
  }

  /** A word that is no number, behind any rows: nothing is written, the lines up to the next
      blank one are skipped, and the reply is a refusal. */
  lemma BadWordRefused(before: seq<Byte>, word: string, behind: seq<Byte>, after: string, linkUp: bool,
      input: seq<Byte>)
    requires |before| < 0x10000 && Plain(word) && Number(word).Fail?
    ensures
      var text := "WRITE " + "\r\n" + (RowLines(before) + (word + "\r\n" + (Rows(behind) + after)));
      var e := RequestEffect(text, linkUp, input);
      e == Effect(true, after, [], input, e.reply) && AnswerOf(e.reply) == Rejected("") && ShortLines(e.reply)
  {
    hide NextToken, Newline, Uncommented, Rows, SameWord, FlushLines, ReadEffect, AnswerOf, Number, RowLines, Collect;
    var stream := word + "\r\n" + (Rows(behind) + after);
    PlainWords();
    FirstLine("WRITE", RowLines(before) + stream);
    assert "WRITE" + " \r\n" == "WRITE " + "\r\n";
    CollectPad(" \r\n", RowLines(before) + stream, []);
    CollectLines(before, stream, []);
    assert [] + before == before;
    CollectBad(before, word, Rows(behind) + after);
    FlushRows(behind, after);
    SpelledWrite();
    ErrorRead("invalid data", "", 1);
    assert "-ERR #" + "invalid data" + "\r\n" + "" == "-ERR #invalid data\r\n";
    ErrorIsShort("-ERR #invalid data\r\n");
  }

  lemma CollectBad(data: seq<Byte>, word: string, stream: string)
    requires |data| < 0x10000 && Plain(word) && Number(word).Fail?
    ensures Collect("", word + "\r\n" + stream, data) == BadData(stream)
  {
    hide NextToken, Newline, Number;
    var line := word + "\r\n";
    assert line[..|line| - 1] == word + "\r" && '\n' !in word;
    LineFirst(line, stream);
    WordIsToken("", word, "\r\n");
    NoPad(word, "\r\n");
    NoToken("");
  }

  /** A READ without a size, or with a word that is no number, takes nothing and is refused. */
  lemma BadSizeRefused(word: string, after: string, linkUp: bool, input: seq<Byte>, size: nat)
    requires word == "" || (Plain(word) && Number(word).Fail?)
    ensures var e := RequestEffect("READ " + word + "\r\n" + after, linkUp, input);
      e == Effect(true, after, [], input, e.reply) && ReadReply(e.reply, size) == Refused("") && ShortLines(e.reply)
  {
    hide NextToken, Printing, Number, ReadReply, ShortLines, RequestEffect, Plain, Kept;
    ReadRequest(word, after, linkUp, input);
    if word == "" {
      NoSizeReply(size);
    } else {
      BadSizeReply(word, size);
    }
  }

  lemma NoSizeReply(size: nat)
    ensures ReadReply("-ERR #size needed\r\n", size) == Refused("") && ShortLines("-ERR #size needed\r\n")
  {
    hide AnswerOf, ReadReply, ShortLines;
    ErrorReply("size needed", size);
    assert "-ERR #" + "size needed" + "\r\n" == "-ERR #size needed\r\n";
  }

  lemma BadSizeReply(word: string, size: nat)
    requires Plain(word)
    ensures var reply := Kept("-ERR #invalid number '" + word + "'\r\n");
      ReadReply(reply, size) == Refused("") && ShortLines(reply)
  {
    hide AnswerOf, ReadReply, ShortLines;
    var comment := "invalid number '" + word + "'";
    assert '\n' !in word;
    ErrorReply(comment, size);
    assert "-ERR #" + comment == "-ERR #invalid number '" + word + "'";
    assert "-ERR #" + comment + "\r\n" == "-ERR #invalid number '" + word + "'\r\n";
  }

  lemma ReadRequest(word: string, after: string, linkUp: bool, input: seq<Byte>)
    requires word == "" || Plain(word)
    ensures RequestEffect("READ " + word + "\r\n" + after, linkUp, input) ==
            ReadEffect(" " + word + "\r\n", after, linkUp, input)
    ensures NextToken(" " + word + "\r\n").0 == word
  {
    hide NextToken, Newline, Uncommented, SameWord, ReadEffect, WriteEffect;
    RequestWords("READ", word, after);
    assert "READ" + " " + word == "READ " + word;
    SpelledRead();
  }

  /** A word that is no command of the server is refused. */
  lemma UnknownRefused(command: string, word: string, after: string, linkUp: bool, input: seq<Byte>)
    requires Plain(command) && (word == "" || Plain(word))
    requires forall known :: known in ["read", "write", "user", "status", "reset", "close", "exit", "quit"] ==>
      !SameWord(command, known)
    ensures var e := RequestEffect(command + " " + word + "\r\n" + after, linkUp, input);
      e == Effect(true, after, [], input, e.reply) && AnswerOf(e.reply) == Rejected("") && ShortLines(e.reply)
  {
    hide NextToken, Newline, Uncommented, SameWord, ReadEffect, WriteEffect, AnswerOf, ReadReply, ShortLines;
    RequestWords(command, word, after);
    InvalidCommand();
  }

  lemma InvalidCommand()
    ensures AnswerOf("-ERR #invalid command\r\n") == Rejected("") && ShortLines("-ERR #invalid command\r\n")
  {
    hide AnswerOf, ReadReply, ShortLines;
    ErrorReply("invalid command", 1);
    assert "-ERR #" + "invalid command" + "\r\n" == "-ERR #invalid command\r\n";
  }

  lemma ErrorReply(comment: string, size: nat)
    requires '\n' !in comment && |comment| < 80
    ensures var reply := "-ERR #" + comment + "\r\n";
      AnswerOf(reply) == Rejected("") && ReadReply(reply, size) == Refused("") && ShortLines(reply)
  {
    hide AnswerOf, ReadReply;
    var reply := "-ERR #" + comment + "\r\n";
    ErrorRead(comment, "", size);
    assert reply + "" == reply;
    assert reply[..|reply| - 1] == "-ERR #" + comment + "\r";
    ErrorIsShort(reply);
  }

  /** The words of a request line. */
  lemma RequestWords(command: string, word: string, after: string)
    requires Plain(command) && (word == "" || Plain(word))
    ensures var text := command + " " + word + "\r\n" + after;
      var k := Newline(text);
      && k < |text| && text[k + 1..] == after
      && NextToken(Uncommented(text[..k + 1])) == (command, " " + word + "\r\n")
      && NextToken(" " + word + "\r\n").0 == word
  {
    hide NextToken, Newline, Uncommented;
    var line := command + " " + word + "\r\n";
    assert '\n' !in command && '\n' !in word && '#' !in line;
    assert line[..|line| - 1] == command + " " + word + "\r";
    LineFirst(line, after);
    NoComment(line);
    WordIsToken("", command, " " + word + "\r\n");
    assert "" + command + (" " + word + "\r\n") == line;
    if word == "" {
      NoToken(" " + word + "\r\n");
    } else {
      WordIsToken(" ", word, "\r\n");
    }
  }
}
