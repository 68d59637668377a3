/** The buffered stream of sockstream.c, for any splitting of the two byte streams. */
module Sockstream {

  import opened Ez8
  import opened Text

  const BUFSIZ := 8192

  datatype Option<+T> = None | Some(value: T)

  // ----- Lines -----

  /** The position of the first newline, or the length. */
  function Newline(s: string): (k: nat)
    ensures k <= |s| && (k < |s| ==> s[k] == '\n') && forall i :: 0 <= i < k ==> s[i] != '\n'
  {
    Index(s, '\n')
  }

  lemma NewlineIs(s: string, k: nat)
    requires k <= |s| && (k < |s| ==> s[k] == '\n') && forall i :: 0 <= i < k ==> s[i] != '\n'
    ensures Newline(s) == k
  {
    IndexIs(s, '\n', k);
  }

  /** Every line, newline and terminator included, fits a buffer of BUFSIZ. */
  predicate ShortLines(s: string)
    decreases |s|
  {
    var k := Newline(s);
    k + 1 < BUFSIZ && (k < |s| ==> ShortLines(s[k + 1..]))
  }

  // ----- The buffered stream -----

  /** One end of a connection: what is printed and read here, and the two directions of the
      network. The network takes and delivers the bytes in pieces of any size. */
  class Sock {
    var tx: string
    var rx: string
    /** Handed to the network so far, and on its way from the peer. */
    var sent: string
    var incoming: string

    ghost predicate Valid()
      reads this
    {
      |tx| < BUFSIZ && |rx| <= BUFSIZ
    }

    /** Everything printed so far, and everything not yet read. */
    ghost function Printed(): string
      reads this
    {
      sent + tx
    }

    function Pending(): string
      reads this
    {
      rx + incoming
    }

    /** ss_open */
    constructor ()
      ensures Valid() && Printed() == "" && Pending() == ""
    {
      tx, rx, sent, incoming := "", "", "", "";
    }

    method Send(data: string) returns (n: nat)
      requires data != ""
      modifies this`sent
      ensures 0 < n <= |data| && sent == old(sent) + data[..n]
    {
      var taken: int := *;
      n := if taken < 1 then 1 else if taken > |data| then |data| else taken;
      sent := sent + data[..n];
    }

    /** Nothing, once the peer has closed. */
    method Recv() returns (data: string)
      modifies this`incoming
      ensures old(incoming) == data + incoming && |data| <= BUFSIZ && (data == "" ==> incoming == "")
    {
      var ready: int := *;
      var n := if ready < 1 then 1 else ready;
      n := if n > BUFSIZ then BUFSIZ else n;
      n := if n > |incoming| then |incoming| else n;
      data := incoming[..n];
      incoming := incoming[n..];
    }

    /** ss_flush */
    method Flush()
      requires Valid()
      modifies this`tx, this`sent
      ensures Valid() && tx == "" && Printed() == old(Printed())
    {
      while |tx| > 0
        invariant Valid() && Printed() == old(Printed())
      {
        var n := Send(tx);
        tx := tx[n..];
      }
    }

    /** ss_printf: a string that is not shorter than the buffer is dropped. */
    method Printf(text: string)
      requires Valid()
      modifies this`tx, this`sent
      ensures Valid() && Printed() == old(Printed()) + if |text| < BUFSIZ then text else ""
    {
      var room := BUFSIZ - |tx|;
      if |text| >= room {
        Flush();
        if |text| >= BUFSIZ {
          Flush();
        } else {
          tx := text;
        }
      } else {
        tx := tx + text;
      }
    }

    /** Take what is buffered, up to the first newline; `p` has been taken before. */
    method TakeBuffered(ghost p: string) returns (part: string, found: bool)
      requires Valid() && rx != "" && |p| <= Newline(p + Pending())
      modifies this`rx
      ensures Valid() && part != "" && part + Pending() == old(Pending())
      ensures var k := Newline(p + old(Pending()));
        if found then k == |p| + |part| - 1 && k < |p + old(Pending())| else rx == "" && |p| + |part| <= k
    {
      hide Newline;
      var at := Memchr(rx, '\n');
      found := at < |rx|;
      var cnt := if found then at + 1 else |rx|;
      TakeLine(p, rx, incoming, at);
      part := rx[..cnt];
      rx := rx[cnt..];
    }

    /** recv into the empty buffer. */
    method Refill() returns (more: bool)
      requires Valid() && rx == ""
      modifies this`rx, this`incoming
      ensures Valid() && Pending() == old(Pending())
      ensures if more then |incoming| < |old(incoming)| else Pending() == ""
    {
      assert Pending() == incoming;
      var data := Recv();
      more := data != "";
      rx := data;
    }

    /** ss_gets, into a buffer of BUFSIZ. */
    method Gets() returns (line: Option<string>)
      requires Valid() && Newline(Pending()) + 1 < BUFSIZ
      modifies this`rx, this`incoming
      ensures Valid()
      ensures var stream := old(Pending()); var k := Newline(stream);
        if k < |stream| then line == Some(stream[..k + 1]) && Pending() == stream[k + 1..]
        else line == None && Pending() == ""
    {
      hide Newline;
      var p, n := "", BUFSIZ;
      ghost var stream := Pending();
      assert p + Pending() == stream;
      while n > 0
        invariant Valid() && n == BUFSIZ - |p| && p + Pending() == stream && |p| <= Newline(stream)
        decreases |incoming|, |rx|
      {
        if |rx| > 0 {
          var part, found := TakeBuffered(p);
          Regroup(p, part, Pending());
          p := p + part;
          n := n - |part|;
          if found || n <= 0 {
            assert stream[..|p|] == p && stream[|p|..] == Pending();
            return Some(p);
          }
        }
        var more := Refill();
        if !more {
          assert p + "" == p;
          return None;
        }
      }
      return Some(p);
    }
  }

  lemma Regroup(a: string, b: string, c: string)
    ensures (a + b) + c == a + (b + c)
  {}

  method Memchr(s: string, c: char) returns (k: nat)
    ensures k <= |s| && (k < |s| ==> s[k] == c) && forall i :: 0 <= i < k ==> s[i] != c
  {
    k := 0;
    while k < |s| && s[k] != c
      invariant k <= |s| && forall i :: 0 <= i < k ==> s[i] != c
    {
      k := k + 1;
    }
  }

  /** Where the first newline of the stream is, seen from one buffer full of it. */
  lemma TakeLine(p: string, rx: string, rest: string, at: nat)
    requires at <= |rx| && (at < |rx| ==> rx[at] == '\n') && forall i :: 0 <= i < at ==> rx[i] != '\n'
    requires |p| <= Newline(p + (rx + rest))
    ensures var stream := p + (rx + rest);
      if at < |rx| then Newline(stream) == |p| + at && stream[..|p| + at + 1] == p + rx[..at + 1]
      else |p| + |rx| <= Newline(stream)
  {
    var stream := p + (rx + rest);
    assert forall i :: 0 <= i < |p| ==> stream[i] != '\n';
    assert forall i :: |p| <= i < |p| + |rx| ==> stream[i] == rx[i - |p|];
    if at < |rx| {
      NewlineIs(stream, |p| + at);
    }
  }
}
