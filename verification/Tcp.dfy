/** The client's read and write of ocd_tcpip.cpp against the server of server.cpp. */
module Tcp {

  import opened Ez8
  import opened Text
  import opened Sockstream
  import opened Protocol

  // ----- The two ends -----

  /** The loop that prints bytes, eight to a line, and the blank line that ends them. */
  method PrintBytes(s: Sock, data: seq<Byte>)
    requires s.Valid()
    modifies s`tx, s`sent
    ensures s.Valid() && s.Printed() == old(s.Printed()) + Printing(data, 0)
  {
    hide Item, Printing;
    var i := 0;
    while i < |data|
      invariant i <= |data| && s.Valid()
      invariant s.Printed() + Printing(data, i) == old(s.Printed()) + Printing(data, 0)
    {
      PrintNext(s.Printed(), data, i);
      if i % 8 == 0 {
        s.Printf("\r\n");
      }
      s.Printf(Item(data[i]));
      i := i + 1;
    }
    PrintNext(s.Printed(), data, i);
    s.Printf("\r\n\r\n");
  }

  lemma PrintNext(printed: string, data: seq<Byte>, i: nat)
    requires i <= |data|
    ensures printed + Printing(data, i) ==
      if i == |data| then printed + "\r\n\r\n"
      else (if i % 8 == 0 then printed + "\r\n" else printed) + Item(data[i]) + Printing(data, i + 1)
  {
    hide Item;
    if i < |data| {
      Regroup(printed, Item(data[i]), Printing(data, i + 1));
      Regroup(printed, "\r\n", Item(data[i]) + Printing(data, i + 1));
      Regroup(printed + "\r\n", Item(data[i]), Printing(data, i + 1));
    }
  }

  class Server {
    const s: Sock
    var linkUp: bool
    /** What dbg->write was given, and the bytes dbg->read has yet to return. */
    var written: seq<seq<Byte>>
    var input: seq<Byte>

    constructor (s: Sock)
      ensures this.s == s
    {
      this.s := s;
    }

    method ClientFlush() returns (ok: bool)
      requires s.Valid() && ShortLines(s.Pending())
      modifies s`rx, s`incoming
      ensures s.Valid()
      ensures match FlushLines(old(s.Pending()))
        case None => !ok && s.Pending() == ""
        case Some(after) => ok && s.Pending() == after
      ensures ShortLines(s.Pending())
    {
      hide NextToken, Newline;
      while true
        invariant s.Valid() && ShortLines(s.Pending())
        invariant FlushLines(s.Pending()) == FlushLines(old(s.Pending()))
        decreases |s.Pending()|
      {
        var line := s.Gets();
        if line.None? {
          return false;
        }
        if NextToken(Uncommented(line.value)).0 == "" {
          return true;
        }
      }
    }

    method Refuse(reply: string) returns (alive: bool)
      requires s.Valid() && ShortLines(s.Pending()) && |reply| < BUFSIZ
      modifies s
      ensures s.Valid()
      ensures DoneAs(Recover(old(s.Pending()), input, reply), old(s.Printed()), written, alive)
      ensures ShortLines(s.Pending())
    {
      alive := ClientFlush();
      if alive {
        s.Printf(reply);
      }
    }

    /** The loop of client_write: words become bytes until a blank line. */
    method Gather(line: string) returns (c: Collected)
      requires s.Valid() && ShortLines(s.Pending())
      modifies s`rx, s`incoming
      ensures s.Valid() && ShortLines(s.Pending())
      ensures c == Collect(line, old(s.Pending()), [])
      ensures s.Pending() == if c.Closed? then "" else c.stream
    {
      hide NextToken, Newline, Number, ByteOf;
      var rest, data: seq<Byte> := line, [];
      ghost var stream := s.Pending();
      while true
        invariant s.Valid() && ShortLines(s.Pending())
        invariant Collect(rest, s.Pending(), data) == Collect(line, stream, [])
        decreases |s.Pending()|, |rest|
      {
        var (word, more) := NextToken(rest);
        if word == "" {
          var next := s.Gets();
          if next.None? {
            return Closed;
          }
          var token := NextToken(next.value);
          word, more := token.0, token.1;
          if word == "" {
            return Done(data, s.Pending());
          }
        }
        if |data| >= 0x10000 {
          return TooMuch(s.Pending());
        }
        var n := Number(word);
        if n.Fail? {
          return BadData(s.Pending());
        }
        data := data + [ByteOf(n.value % 256)];
        rest := more;
      }
    }

    /** client_write, after the request's first word. */
    method ClientWrite(line: string) returns (alive: bool)
      requires s.Valid() && ShortLines(s.Pending())
      modifies this`written, s
      ensures s.Valid() && ShortLines(s.Pending())
      ensures DoneAs(WriteEffect(line, old(s.Pending()), linkUp, input), old(s.Printed()), old(written), alive)
    {
      hide Collect, FlushLines;
      var c := Gather(line);
      alive := true;
      match c
      case Closed =>
        alive := false;
      case TooMuch(_) =>
        alive := Refuse("-ERR size out-of-range\r\n");
      case BadData(_) =>
        alive := Refuse("-ERR #invalid data\r\n");
      case Done(data, _) =>
        if !linkUp {
          s.Printf("-ERR #link down\r\n");
        } else {
          written := written + [data];
          s.Printf("+OK\r\n");
        }
    }

    /** client_read, after the request's first word. */
    method ClientRead(rest: string) returns (alive: bool)
      requires s.Valid() && ShortLines(s.Pending())
      modifies this`input, s`tx, s`sent
      ensures s.Valid() && alive
      ensures DoneAs(ReadEffect(rest, s.Pending(), linkUp, old(input)), old(s.Printed()), written, true)
    {
      hide NextToken, Number, Printing;
      alive := true;
      var word := NextToken(rest).0;
      if word == "" {
        s.Printf("-ERR #size needed\r\n");
        return;
      }
      var n := Number(word);
      if n.Fail? {
        s.Printf("-ERR #invalid number '" + word + "'\r\n");
      } else if !linkUp {
        s.Printf("-ERR #link down\r\n");
      } else if !(0 <= n.value <= |input|) {
        s.Printf("-ERR #read failed\r\n");
      } else {
        var data := input[..n.value];
        input := input[n.value..];
        s.Printf("+OK ");
        PrintBytes(s, data);
      }
    }

    /** One request of service_client, for an authenticated client. */
    method Request() returns (alive: bool)
      requires s.Valid() && ShortLines(s.Pending())
      modifies this`input, this`written, s
      ensures s.Valid() && s.tx == ""
      ensures alive ==> ShortLines(s.Pending())
      ensures DoneAs(RequestEffect(old(s.Pending()), linkUp, old(input)), old(s.Printed()), old(written), alive)
    {
      hide NextToken, Newline, SameWord, ReadEffect, WriteEffect;
      s.Flush();
      var line := s.Gets();
      if line.None? {
        return false;
      }
      var (word, rest) := NextToken(Uncommented(line.value));
      alive := true;
      if word == "" {
        return;
      }
      if SameWord(word, "read") {
        alive := ClientRead(rest);
      } else if SameWord(word, "write") {
        alive := ClientWrite(rest);
      } else {
        s.Printf("-ERR #invalid command\r\n");
      }
      s.Flush();
    }

    /** The server is left as an effect says. */
    ghost predicate DoneAs(e: Effect, printed: string, before: seq<seq<Byte>>, alive: bool)
      reads this, s
    {
      && alive == e.alive && s.Pending() == e.stream && input == e.input
      && written == before + e.written && s.Printed() == printed + e.reply
    }
  }

  class OcdTcpip {
    const s: Sock
    var open: bool
    var up: bool

    constructor (s: Sock)
      ensures this.s == s && open && up
    {
      this.s, open, up := s, true, true;
    }

    /** write, up to the reply. */
    method SendWrite(data: seq<Byte>) returns (r: Result<()>)
      requires s.Valid() && data != []
      modifies s`tx, s`sent
      ensures s.Valid() && (r.Ok? <==> open && up)
      ensures r.Ok? ==> s.tx == ""
      ensures s.Printed() == old(s.Printed()) + if r.Ok? then "WRITE " + Printing(data, 0) else ""
    {
      if !open || !up {
        return Fail(LinkFailed);
      }
      s.Printf("WRITE ");
      s.Flush();
      PrintBytes(s, data);
      s.Flush();
      return Ok(());
    }

    /** The reply to write: blank lines are skipped. */
    method WriteReply() returns (r: Result<()>)
      requires s.Valid() && ShortLines(s.Pending())
      modifies this, s`rx, s`incoming
      ensures s.Valid()
      ensures match AnswerOf(old(s.Pending()))
        case Accepted(after) => r.Ok? && s.Pending() == after && open == old(open) && up == old(up)
        case Rejected(after) => r.Fail? && s.Pending() == after && open == old(open) && !up
        case Broken => r.Fail? && !open
    {
      hide NextToken, Newline, SameWord;
      var word, more := "", "";
      while word == ""
        invariant s.Valid() && (word == "" ==> ShortLines(s.Pending())) && open == old(open) && up == old(up)
        invariant AnswerOf(old(s.Pending())) ==
          if word == "" then AnswerOf(s.Pending()) else Judged(word, more, s.Pending())
        decreases |s.Pending()|
      {
        var line := s.Gets();
        if line.None? {
          open := false;
          return Fail(LinkFailed);
        }
        var token := NextToken(Uncommented(line.value));
        word, more := token.0, token.1;
      }
      var garbage := NextToken(more).0 != "";
      if SameWord(word, "+OK") {
        if garbage {
          open := false;
          return Fail(LinkFailed);
        }
        return Ok(());
      } else if SameWord(word, "-ERR") {
        up := false;
        if garbage {
          open := false;
        }
        return Fail(LinkFailed);
      }
      open := false;
      return Fail(LinkFailed);
    }

    /** read, up to the reply. */
    method SendRead(size: nat) returns (r: Result<()>)
      requires s.Valid() && 0 < size <= 0x10000
      modifies s`tx, s`sent
      ensures s.Valid() && (r.Ok? <==> open && up)
      ensures r.Ok? ==> s.tx == ""
      ensures s.Printed() == old(s.Printed()) + if r.Ok? then "READ " + SizeWord(size) + "\r\n" else ""
    {
      if !open || !up {
        return Fail(LinkFailed);
      }
      SizeIsShort(size);
      s.Printf("READ " + SizeWord(size) + "\r\n");
      s.Flush();
      return Ok(());
    }

    /** The reply to read; no blank line is skipped, so the reply may not start with one. */
    method ReadData(size: nat) returns (r: Result<seq<Byte>>)
      requires s.Valid() && ShortLines(s.Pending())
      requires size > 0 && !ReadReply(s.Pending(), size).NullWord?
      modifies this, s`rx, s`incoming
      ensures s.Valid()
      ensures match ReadReply(old(s.Pending()), size)
        case Data(data, after) => r == Ok(data) && s.Pending() == after && open == old(open) && up == old(up)
        case Refused(after) => r.Fail? && s.Pending() == after && open == old(open) && !up
        case _ => r.Fail? && !open
    {
      hide NextToken, Newline, SameWord, Number, ByteOf;
      var line := s.Gets();
      if line.None? {
        open := false;
        return Fail(LinkFailed);
      }
      var (word, rest) := NextToken(Uncommented(line.value));
      if SameWord(word, "-ERR") {
        up := false;
        return Fail(LinkFailed);
      }
      if !SameWord(word, "+OK") {
        open := false;
        return Fail(LinkFailed);
      }
      var data: seq<Byte> := [];
      while |data| < size
        invariant s.Valid() && ShortLines(s.Pending()) && open == old(open) && up == old(up)
        invariant Receive(rest, s.Pending(), size, data) == ReadReply(old(s.Pending()), size)
        decreases |s.Pending()|, |rest|
      {
        var token := NextToken(rest);
        if token.0 == "" {
          line := s.Gets();
          if line.None? {
            open := false;
            return Fail(LinkFailed);
          }
          token := NextToken(Uncommented(line.value));
          if token.0 == "" {
            open := false;
            return Fail(LinkFailed);
          }
        }
        var n := Number(token.0);
        if n.Fail? {
          open := false;
          return Fail(LinkFailed);
        }
        data := data + [ByteOf(n.value % 256)];
        rest := token.1;
      }
      return Ok(data);
    }
  }

  lemma Powers()
    ensures Power16(5) == 0x10_0000
  {
    assert Power16(1) == 16 && Power16(2) == 256 && Power16(3) == 0x1000 && Power16(4) == 0x1_0000;
  }

  // ----- A whole exchange -----

  /** The printed bytes fit the line buffer. */
  lemma PrintedIsShort(word: string, data: seq<Byte>)
    requires data != [] && Plain(word)
    ensures ShortLines(word + " " + Printing(data, 0) + "")
  {
    hide Newline, Printing, Rows, NextToken, Uncommented;
    PrintedAfter(word, data, "");
    EmptyIsShort();
    RowsAreShort(data, "");
  }

  lemma EmptyIsShort()
    ensures ShortLines("")
  {}

  lemma SizeIsShort(size: nat)
    requires size <= 0x10000
    ensures |SizeWord(size)| <= 7 && ShortLines("READ " + SizeWord(size) + "\r\n" + "")
  {
    hide Newline, HexNumber;
    assert Power16(5) == 0x10_0000 by { Powers(); }
    HexNumberLength(size, 4, 5);
    SizeWordPlain(size);
    var line := "READ " + SizeWord(size) + "\r\n";
    assert line[..|line| - 1] == "READ " + SizeWord(size) + "\r";
    LineFirst(line, "");
    EmptyIsShort();
  }

  lemma OkIsAccepted()
    ensures AnswerOf("+OK\r\n") == Accepted("") && ShortLines("+OK\r\n")
  {
    hide Newline, NextToken, Uncommented, SameWord;
    LineFirst("+OK\r\n", "");
    assert "+OK\r\n" + "" == "+OK\r\n";
    NoComment("+OK\r\n");
    WordIsToken("", "+OK", "\r\n");
    assert "" + "+OK" + "\r\n" == "+OK\r\n";
    NoToken("\r\n");
    SameAsItself("+OK");
    EmptyIsShort();
  }

  method Deliver(from: Sock, to: Sock)
    requires from != to && from.tx == ""
    modifies from`sent, to`incoming
    ensures to.Pending() == old(to.Pending()) + old(from.Printed()) && from.Printed() == ""
  {
    assert from.Printed() == from.sent;
    assert to.rx + (to.incoming + from.sent) == to.Pending() + from.sent;
    to.incoming := to.incoming + from.sent;
    from.sent := "";
  }

  /** A blank line left over from a read is skipped. */
  lemma BlankIsSkipped()
    ensures AnswerOf("\r\n" + "+OK\r\n") == Accepted("") && ShortLines("\r\n" + "+OK\r\n")
  {
    hide Newline, NextToken, Uncommented, Judged;
    OkIsAccepted();
    LineFirst("\r\n", "+OK\r\n");
    NoComment("\r\n");
    NoToken("\r\n");
  }

  /** Whatever the pieces the network cuts the streams into, the link behind the server is
      written the client's bytes, once, and both streams end empty, also when a read before has
      left its blank line. */
  method WriteThrough(client: OcdTcpip, server: Server, data: seq<Byte>) returns (r: Result<()>)
    requires client.s != server.s && client.s.Valid() && server.s.Valid()
    requires client.s.Printed() == "" && (client.s.Pending() == "" || client.s.Pending() == "\r\n")
    requires server.s.Printed() == "" && server.s.Pending() == ""
    requires client.open && client.up && server.linkUp && 0 < |data| <= 0x10000
    modifies client, client.s, server, server.s
    ensures r.Ok? && server.written == old(server.written) + [data] && server.input == old(server.input)
    ensures client.s.Printed() == "" && client.s.Pending() == "" && server.s.Printed() == "" && server.s.Pending() == ""
    ensures client.open && client.up && server.linkUp
  {
    hide Printing, RequestEffect, AnswerOf, ShortLines;
    r := client.SendWrite(data);
    Deliver(client.s, server.s);
    WriteArrives(data, "", server.input);
    PlainWords();
    PrintedIsShort("WRITE", data);
    assert server.s.Pending() == "WRITE " + Printing(data, 0) + "";
    assert "WRITE" + " " == "WRITE ";
    var alive := server.Request();
    Deliver(server.s, client.s);
    OkIsAccepted();
    BlankIsSkipped();
    assert client.s.Pending() == "+OK\r\n" || client.s.Pending() == "\r\n" + "+OK\r\n";
    r := client.WriteReply();
  }

  /** The same for a read, which leaves its blank line behind. */
  method ReadThrough(client: OcdTcpip, server: Server, size: nat) returns (r: Result<seq<Byte>>)
    requires client.s != server.s && client.s.Valid() && server.s.Valid()
    requires client.s.Printed() == "" && client.s.Pending() == ""
    requires server.s.Printed() == "" && server.s.Pending() == ""
    requires client.open && client.up && server.linkUp && 0 < size <= 0x10000 && size <= |server.input|
    modifies client, client.s, server, server.s
    ensures r == Ok(old(server.input)[..size]) && server.input == old(server.input)[size..]
    ensures client.s.Printed() == "" && server.s.Printed() == "" && server.s.Pending() == ""
    ensures client.s.Pending() == "\r\n"
    ensures client.open && client.up && server.linkUp && server.written == old(server.written)
  {
    hide Printing, RequestEffect, ReadReply, ShortLines, SizeWord;
    var sent := client.SendRead(size);
    Deliver(client.s, server.s);
    SizeArrives(size, "", server.input);
    SizeIsShort(size);
    assert server.s.Pending() == "READ " + SizeWord(size) + "\r\n" + "";
    var data := server.input[..size];
    var alive := server.Request();
    Deliver(server.s, client.s);
    ReadArrives(data, "");
    PlainWords();
    PrintedIsShort("+OK", data);
    assert client.s.Pending() == "+OK " + Printing(data, 0) + "";
    assert "+OK" + " " == "+OK ";
    r := client.ReadData(size);
  }

  /** A write while the server's link is down: it reaches nothing, it fails, and the client takes
      its own link down. */
  method WriteWhileLinkDown(client: OcdTcpip, server: Server, data: seq<Byte>) returns (r: Result<()>)
    requires client.s != server.s && client.s.Valid() && server.s.Valid()
    requires client.s.Printed() == "" && client.s.Pending() == ""
    requires server.s.Printed() == "" && server.s.Pending() == ""
    requires client.open && client.up && !server.linkUp && 0 < |data| <= 0x10000
    modifies client, client.s, server, server.s
    ensures r.Fail? && client.open && !client.up
    ensures server.written == old(server.written) && server.input == old(server.input)
    ensures client.s.Printed() == "" && client.s.Pending() == "" && server.s.Printed() == "" && server.s.Pending() == ""
  {
    hide Printing, RequestEffect, AnswerOf, ShortLines;
    r := client.SendWrite(data);
    Deliver(client.s, server.s);
    WriteWhileDown(data, "", server.input);
    PlainWords();
    PrintedIsShort("WRITE", data);
    assert server.s.Pending() == "WRITE " + Printing(data, 0) + "";
    assert "WRITE" + " " == "WRITE ";
    ghost var e := RequestEffect(server.s.Pending(), server.linkUp, server.input);
    var alive := server.Request();
    Deliver(server.s, client.s);
    assert client.s.Pending() == e.reply;
    r := client.WriteReply();
  }

  /** More bytes than the server takes: nothing is written, and the client gives the server up. */
  method WriteOversize(client: OcdTcpip, server: Server, data: seq<Byte>) returns (r: Result<()>)
    requires client.s != server.s && client.s.Valid() && server.s.Valid()
    requires client.s.Printed() == "" && client.s.Pending() == ""
    requires server.s.Printed() == "" && server.s.Pending() == ""
    requires client.open && client.up && |data| > 0x10000
    modifies client, client.s, server, server.s
    ensures r.Fail? && !client.open
    ensures server.written == old(server.written) && server.input == old(server.input)
    ensures server.s.Printed() == "" && server.s.Pending() == ""
  {
    hide Printing, RequestEffect, AnswerOf, ShortLines;
    r := client.SendWrite(data);
    Deliver(client.s, server.s);
    WriteTooMuch(data, "", server.linkUp, server.input);
    PlainWords();
    PrintedIsShort("WRITE", data);
    assert server.s.Pending() == "WRITE " + Printing(data, 0) + "";
    assert "WRITE" + " " == "WRITE ";
    ghost var e := RequestEffect(server.s.Pending(), server.linkUp, server.input);
    var alive := server.Request();
    Deliver(server.s, client.s);
    assert client.s.Pending() == e.reply;
    r := client.WriteReply();
  }

  /** A read that the link cannot serve, down or with too few bytes: it takes nothing, and the
      client takes its own link down. */
  method ReadUnserved(client: OcdTcpip, server: Server, size: nat) returns (r: Result<seq<Byte>>)
    requires client.s != server.s && client.s.Valid() && server.s.Valid()
    requires client.s.Printed() == "" && client.s.Pending() == ""
    requires server.s.Printed() == "" && server.s.Pending() == ""
    requires client.open && client.up && 0 < size <= 0x10000 && !(server.linkUp && size <= |server.input|)
    modifies client, client.s, server, server.s
    ensures r.Fail? && client.open && !client.up
    ensures server.written == old(server.written) && server.input == old(server.input)
    ensures client.s.Printed() == "" && client.s.Pending() == "" && server.s.Printed() == "" && server.s.Pending() == ""
  {
    hide Printing, RequestEffect, ReadReply, ShortLines, SizeWord;
    var sent := client.SendRead(size);
    Deliver(client.s, server.s);
    ReadRefused(size, "", server.linkUp, server.input);
    SizeIsShort(size);
    assert server.s.Pending() == "READ " + SizeWord(size) + "\r\n" + "";
    ghost var e := RequestEffect(server.s.Pending(), server.linkUp, server.input);
    var alive := server.Request();
    Deliver(server.s, client.s);
    assert client.s.Pending() == e.reply;
    r := client.ReadData(size);
  }

  // ----- Runs of exchanges -----

  datatype Exchange = Write(data: seq<Byte>) | Read(size: nat)

  /** Sizes as the client allows them, and no read straight after a read. */
  predicate Alternates(xs: seq<Exchange>) {
    && (forall k :: 0 <= k < |xs| ==> 0 < (if xs[k].Write? then |xs[k].data| else xs[k].size) <= 0x10000)
    && forall k :: 0 < k < |xs| ==> xs[k].Write? || xs[k - 1].Write?
  }

  function Writes(xs: seq<Exchange>): seq<seq<Byte>> {
    if xs == [] then [] else
      Writes(xs[..|xs| - 1]) + (if xs[|xs| - 1].Write? then [xs[|xs| - 1].data] else [])
  }

  function Wanted(xs: seq<Exchange>): nat {
    if xs == [] then 0 else Wanted(xs[..|xs| - 1]) + (if xs[|xs| - 1].Read? then xs[|xs| - 1].size else 0)
  }

  /** The reads take successive pieces of what the link has. */
  function Reads(input: seq<Byte>, xs: seq<Exchange>): seq<seq<Byte>>
    requires Wanted(xs) <= |input|
  {
    if xs == [] then [] else
      var before := xs[..|xs| - 1];
      Reads(input, before) + (if xs[|xs| - 1].Read? then [input[Wanted(before)..][..xs[|xs| - 1].size]] else [])
  }

  lemma {:induction false} WantedPrefix(xs: seq<Exchange>, n: nat)
    requires n <= |xs|
    ensures Wanted(xs[..n]) <= Wanted(xs)
    decreases |xs| - n
  {
    if n < |xs| {
      WantedPrefix(xs, n + 1);
      assert xs[..n + 1][..n] == xs[..n];
    } else {
      assert xs[..n] == xs;
    }
  }

  lemma NoExchanges(input: seq<Byte>)
    ensures Writes([]) == [] && Wanted([]) == 0 && Reads(input, []) == [] && input[Wanted([])..] == input
  {}

  /** What one more exchange adds. */
  lemma OneMore(input: seq<Byte>, xs: seq<Exchange>, i: nat)
    requires i < |xs| && Wanted(xs[..i + 1]) <= |input|
    ensures var before, now := xs[..i], xs[..i + 1];
      match xs[i]
      case Write(data) =>
        && Writes(now) == Writes(before) + [data] && Wanted(now) == Wanted(before)
        && Reads(input, now) == Reads(input, before)
      case Read(size) =>
        && Writes(now) == Writes(before) && Wanted(now) == Wanted(before) + size
        && Reads(input, now) == Reads(input, before) + [input[Wanted(before)..][..size]]
        && input[Wanted(before)..][size..] == input[Wanted(now)..]
  {
    var now := xs[..i + 1];
    assert now[..|now| - 1] == xs[..i] && now[|now| - 1] == xs[i];
    if xs[i].Read? {
      DropTwice(input, Wanted(xs[..i]), xs[i].size);
    }
  }

  lemma DropTwice(input: seq<Byte>, n: nat, m: nat)
    requires n + m <= |input|
    ensures input[n..][m..] == input[n + m..]
  {}

  /** Any run in which no read follows a read straight away transfers every byte, both ways, in
      order. (A read after a read meets the first one's blank line: SecondRead.) */
  method Converse(client: OcdTcpip, server: Server, xs: seq<Exchange>) returns (got: seq<seq<Byte>>)
    requires client.s != server.s && client.s.Valid() && server.s.Valid()
    requires client.s.Printed() == "" && client.s.Pending() == ""
    requires server.s.Printed() == "" && server.s.Pending() == ""
    requires client.open && client.up && server.linkUp && Alternates(xs) && Wanted(xs) <= |server.input|
    modifies client, client.s, server, server.s
    ensures server.written == old(server.written) + Writes(xs)
    ensures got == Reads(old(server.input), xs) && server.input == old(server.input)[Wanted(xs)..]
    ensures client.open && client.up && server.linkUp
    ensures client.s.Printed() == "" && server.s.Printed() == "" && server.s.Pending() == ""
    ensures client.s.Pending() == if xs != [] && xs[|xs| - 1].Read? then "\r\n" else ""
  {
    hide Writes, Wanted, Reads;
    got := [];
    ghost var input := server.input;
    NoExchanges(input);
    assert xs[..0] == [];
    for i := 0 to |xs|
      invariant client.s.Valid() && server.s.Valid() && client.open && client.up && server.linkUp
      invariant client.s.Printed() == "" && server.s.Printed() == "" && server.s.Pending() == ""
      invariant client.s.Pending() == if i > 0 && xs[i - 1].Read? then "\r\n" else ""
      invariant Wanted(xs[..i]) <= |input| && server.input == input[Wanted(xs[..i])..]
      invariant server.written == old(server.written) + Writes(xs[..i]) && got == Reads(input, xs[..i])
    {
      WantedPrefix(xs, i + 1);
      OneMore(input, xs, i);
      match xs[i]
      case Write(data) =>
        var _ := WriteThrough(client, server, data);
      case Read(size) =>
        var r := ReadThrough(client, server, size);
        got := got + [r.value];
    }
    assert xs[..|xs|] == xs;
  }
}
