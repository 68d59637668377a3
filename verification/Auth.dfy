/** The md5 challenge handshake: the client of ocd_tcpip.cpp against the server of server.cpp. */
module Auth {

  import opened Ez8
  import opened Text
  import opened Md5
  import Md5Laws
  import opened Sockstream

  // ----- Passwords -----

  function BytesOf(s: string): (bs: seq<Byte>)
    ensures |bs| == |s|
  {
    if s == "" then [] else [ByteOf(s[0] as nat % 256)] + BytesOf(s[1..])
  }

  /** !strncasecmp(pass, "md5=", 4) */
  predicate IsMd5(pass: string): (b: bool)
    ensures b ==> |pass| >= 4
  {
    |pass| >= 4 && SameWord(pass[..4], "md5=")
  }

  /** What both sides hash with the challenge: a password is a text or, after "md5=", the hash of one. */
  function Secret(pass: string): (r: Result<seq<Byte>>)
  {
    if IsMd5(pass) then StrToDigest(pass[4..]) else Ok(Digest(BytesOf(pass)))
  }

  /** Writing a password's hash instead of the password changes nothing, in either case of digits. */
  lemma HashedForm(pass: string, upper: bool)
    requires !IsMd5(pass)
    ensures Secret("md5=" + HexAll(Digest(BytesOf(pass)), upper)) == Secret(pass)
  {
    hide Digest, HexAll, Packed, Digits, SameWord;
    var hash := Digest(BytesOf(pass));
    var hex := HexAll(hash, upper);
    var form := "md5=" + hex;
    assert form[..4] == "md5=" && form[4..] == hex && hex[..32] == hex;
    PackedHex(hash, upper);
    HexDigits(hash, upper);
    SameAsItself("md5=");
  }

  /** A password's characters are its bytes. */
  lemma {:induction false} PasswordBytes(s: string, k: nat)
    requires k < |s| && s[k] as nat < 0x100
    ensures |BytesOf(s)| == |s| && NatOf(BytesOf(s)[k]) == s[k] as nat
    decreases |s|
  {
    hide NatOf, ByteOf;
    BytesAre(s);
    if k > 0 {
      PasswordBytes(s[1..], k - 1);
    } else {
      NatOfByteOf(s[0] as nat);
    }
  }

  lemma {:induction false} BytesAre(s: string)
    requires s != ""
    ensures |BytesOf(s)| == |s| && BytesOf(s)[0] == ByteOf(s[0] as nat % 256) && BytesOf(s)[1..] == BytesOf(s[1..])
  {}

  /** The password "abc" is kept and sent as its digest in section A.5 of RFC 1321. */
  lemma AbcSecret()
    ensures Secret("abc") == Ok([0x90, 0x01, 0x50, 0x98, 0x3c, 0xd2, 0x4f, 0xb0,
                                 0xd6, 0x96, 0x3f, 0x7d, 0x28, 0xe1, 0x7f, 0x72])
  {
    hide Digest, StrToDigest, SameWord, ByteOf;
    Md5Laws.AbcDigest();
    var rest := "abc"[1..];
    assert rest == "bc" && rest[1..] == "c" && "c"[1..] == "";
    assert BytesOf("abc") == [ByteOf(0x61), ByteOf(0x62), ByteOf(0x63)];
    AbcBytes();
  }

  lemma AbcBytes()
    ensures ByteOf(0x61) == 0x61 && ByteOf(0x62) == 0x62 && ByteOf(0x63) == 0x63
  {}

  lemma HexDigits(bs: seq<Byte>, upper: bool)
    ensures Digits(HexAll(bs, upper))
  {
    hide HexAll, IsHex;
  }

  // ----- The user list -----

  /** The list's text from after the colon of the first entry for `user`. */
  function FindUser(list: string, user: string): Option<string>
    decreases |list|
  {
    var c := Index(list, ':');
    if c == |list| then None
    else if |user| == c && SameWord(user, list[..c]) then Some(list[c + 1..])
    else
      var k := c + Index(list[c..], ',');
      if k == |list| then None else FindUser(list[k + 1..], user)
  }

  /** Where there is no entry for the user, the empty name stands for any. */
  function Lookup(list: string, user: string): Option<string> {
    match FindUser(list, user)
    case Some(pass) => Some(pass)
    case None => FindUser(list, "")
  }

  function UpToComma(s: string): string {
    s[..Index(s, ',')]
  }

  datatype Entry = Entry(name: string, pass: string)

  predicate Proper(e: Entry) {
    ':' !in e.name && ',' !in e.name && ',' !in e.pass
  }

  function Listed(entries: seq<Entry>): string {
    if entries == [] then ""
    else entries[0].name + ":" + entries[0].pass + (if |entries| == 1 then "" else "," + Listed(entries[1..]))
  }

  function Named(entries: seq<Entry>, user: string): Option<string> {
    if entries == [] then None
    else if SameWord(user, entries[0].name) then Some(entries[0].pass)
    else Named(entries[1..], user)
  }

  /** The password of the user's first entry, names compared without case, or else that of the
      first entry with an empty name. */
  function Password(entries: seq<Entry>, user: string): Option<string> {
    match Named(entries, user)
    case Some(pass) => Some(pass)
    case None => Named(entries, "")
  }

  /** The search of the list's text finds the entry. */
  lemma {:induction false} FindNamed(entries: seq<Entry>, user: string)
    requires forall e :: e in entries ==> Proper(e)
    ensures match FindUser(Listed(entries), user)
      case Some(tail) => Named(entries, user) == Some(UpToComma(tail))
      case None => Named(entries, user) == None
    decreases |entries|
  {
    hide FindUser, SameWord, UpToComma, Proper;
    if entries == [] {
      NoColon(user);
    } else {
      var rest := if |entries| == 1 then "" else "," + Listed(entries[1..]);
      assert Proper(entries[0]);
      FindStep(entries[0], rest, user);
      if |entries| > 1 {
        assert rest[1..] == Listed(entries[1..]);
        FindNamed(entries[1..], user);
      } else {
        assert entries[1..] == [];
      }
    }
  }

  /** The search stops at the first entry or goes on behind its comma. */
  lemma FindStep(e: Entry, rest: string, user: string)
    requires Proper(e) && (rest != "" ==> rest[0] == ',')
    ensures UpToComma(e.pass + rest) == e.pass
    ensures FindUser(e.name + ":" + e.pass + rest, user) ==
      if SameWord(user, e.name) then Some(e.pass + rest) else if rest == "" then None else FindUser(rest[1..], user)
  {
    hide *;
    var list := e.name + ":" + e.pass + rest;
    EntryText(e, rest);
    EntryTail(e, rest);
    SameLength(user, e.name);
    FindUnfold(list, user, |e.name|, |e.name| + 1 + |e.pass|);
  }

  lemma FindNothing(list: string, user: string)
    requires Index(list, ':') == |list|
    ensures FindUser(list, user) == None
  {}

  lemma FindUnfold(list: string, user: string, c: nat, k: nat)
    requires c == Index(list, ':') < |list| && k == c + Index(list[c..], ',')
    ensures FindUser(list, user) ==
      if |user| == c && SameWord(user, list[..c]) then Some(list[c + 1..])
      else if k == |list| then None else FindUser(list[k + 1..], user)
  {
    hide Index, SameWord;
  }

  lemma EntryTail(e: Entry, rest: string)
    ensures var list := e.name + ":" + e.pass + rest; var k := |e.name| + 1 + |e.pass|;
      && list[|e.name| + 1..] == e.pass + rest && |list| == k + |rest|
      && (rest != "" ==> list[k + 1..] == rest[1..])
  {}

  lemma NoColon(user: string)
    ensures FindUser("", user) == None
  {}

  lemma SameLength(a: string, b: string)
    ensures SameWord(a, b) ==> |a| == |b|
  {
    assert |Lower(a)| == |a| && |Lower(b)| == |b|;
  }

  /** Where the parts of the first entry lie. */
  lemma EntryText(e: Entry, rest: string)
    requires Proper(e) && (rest != "" ==> rest[0] == ',')
    ensures var list := e.name + ":" + e.pass + rest; var c := |e.name|;
      && Index(list, ':') == c && c < |list| && list[..c] == e.name
      && Index(list[c..], ',') == 1 + |e.pass| && list[c + 1 + |e.pass|..] == rest
      && UpToComma(list[c + 1..]) == e.pass
  {
    hide Index;
    var tail := ":" + (e.pass + rest);
    var list := e.name + ":" + e.pass + rest;
    assert list == e.name + tail;
    var c := |e.name|;
    FirstAt(e.name, tail, ':');
    FirstAt(":" + e.pass, rest, ',');
    assert ":" + e.pass + rest == tail && list[c..] == tail;
    FirstAt(e.pass, rest, ',');
    assert list[c + 1..] == e.pass + rest;
  }

  /** The first `c` after a text without one. */
  lemma FirstAt(text: string, rest: string, c: char)
    requires c !in text && (rest != "" ==> rest[0] == c)
    ensures Index(text + rest, c) == |text| && (text + rest)[..|text|] == text && (text + rest)[|text|..] == rest
  {
    IndexIs(text + rest, c, |text|);
  }

  lemma LookupPassword(entries: seq<Entry>, user: string)
    requires forall e :: e in entries ==> Proper(e)
    ensures match Lookup(Listed(entries), user)
      case Some(tail) => Password(entries, user) == Some(UpToComma(tail))
      case None => Password(entries, user) == None
  {
    hide FindUser, Named;
    FindNamed(entries, user);
    FindNamed(entries, "");
  }

  /** The server looks at the rest of the list where the entry's password is meant. */
  lemma TailSecret(tail: string)
    ensures var pass := UpToComma(tail);
      && IsMd5(tail) == IsMd5(pass)
      && (IsMd5(tail) ==> StrToDigest(tail[4..]) == StrToDigest(pass[4..]))
  {
    hide SameWord, Packed;
    var pass := UpToComma(tail);
    if |tail| >= 4 && |pass| < 4 {
      CommaIsNotMd5(tail);
    }
    if |pass| >= 4 {
      assert tail[..4] == pass[..4];
      if |pass| >= 36 {
        assert tail[4..][..32] == pass[4..][..32];
      } else if |tail| >= 36 {
        assert tail[4..][..32][|pass| - 4] == ',';
      }
    }
  }

  lemma CommaIsNotMd5(tail: string)
    requires |tail| >= 4 && Index(tail, ',') < 4
    ensures !IsMd5(tail)
  {
    var k := Index(tail, ',');
    LowerAt(tail[..4], k);
    LowerAt("md5=", k);
  }

  lemma {:induction false} LowerAt(s: string, k: nat)
    requires k < |s|
    ensures Lower(s)[k] == LowerChar(s[k])
  {
    if k > 0 {
      LowerAt(s[1..], k - 1);
    }
  }

  // ----- The lines exchanged -----

  function UserLine(user: string): string {
    "USER " + user + " AUTH MD5\r\n"
  }

  datatype Requested = Challenge(pass: Option<string>) | Plaintext | Protocol(reply: string)

  /** client_auth on the words after "USER"; the password found is the list's text behind it. */
  function UserRequest(rest: string, list: string): Requested {
    var (user, more) := NextToken(rest);
    if user == "" then Protocol("-ERR #missing username \r\n")
    else
      var (auth, last) := NextToken(more);
      var how := NextToken(last).0;
      if auth == "" then Protocol("-ERR #missing auth type\r\n")
      else if !SameWord(auth, "auth") then Protocol("-ERR #invalid auth type\r\n")
      else if how == "" then Protocol("-ERR #missing auth type\r\n")
      else if SameWord(how, "plaintext") then Plaintext
      else if SameWord(how, "md5") then Challenge(Lookup(list, user))
      else Protocol("-ERR #unknown authentication method\r\n")
  }

  function ChallengeLine(challenge: seq<Byte>): string {
    "+OK CHALLENGE " + HexAll(challenge, false) + "\r\n"
  }

  /** The client's line in reply to the challenge, or why it gives up. */
  function Response(line: string, secret: seq<Byte>): Result<string> {
    var (ok, words) := NextToken(Uncommented(line));
    var (name, more) := NextToken(words);
    var (hex, rest) := NextToken(more);
    if !SameWord(ok, "+OK") || !SameWord(name, "CHALLENGE") then Fail(LinkFailed)
    else match StrToDigest(hex)
      case Fail(_) => Fail(LinkFailed)
      case Ok(challenge) =>
        if NextToken(rest).0 != "" then Fail(LinkFailed)
        else Ok(HexAll(Digest(challenge + secret)) + "\r\n")
  }

  /** What auth_server makes of "user:password": the line to send, and what to hash with the
      challenge; it gives up without both a name and a password. */
  function LoginOf(credentials: string): Result<(string, seq<Byte>)> {
    var c := Index(credentials, ':');
    if c == |credentials| || c == 0 || c + 1 == |credentials| then Fail(Unsupported)
    else match Secret(credentials[c + 1..])
      case Fail(_) => Fail(Unsupported)
      case Ok(secret) => Ok((UserLine(credentials[..c]), secret))
  }

  /** A line without a word. */
  predicate Blank(line: string) {
    NextToken(Uncommented(line)).0 == ""
  }

  /** Blank lines before the challenge are skipped. */
  function Replied(lines: seq<string>, secret: seq<Byte>): Result<string>
    decreases |lines|
  {
    if lines == [] then Fail(LinkFailed)
    else if Blank(lines[0]) then Replied(lines[1..], secret)
    else Response(lines[0], secret)
  }

  /** Whether the server accepts the client's line. */
  predicate Accepts(pass: Option<string>, challenge: seq<Byte>, line: string) {
    var word := NextToken(Uncommented(line)).0;
    && word != "" && pass.Some?
    && var secret := Secret(UpToComma(pass.value));
       secret.Ok? && StrToDigest(word) == Ok(Digest(challenge + secret.value))
  }

  // ----- Who is let in -----

  /** A word that survives the server's comment and word splitting. */
  predicate UserName(user: string) {
    user != "" && forall k :: 0 <= k < |user| ==> !IsDelimiter(user[k])
  }

  /** The words the server finds behind USER, the name it looks up, and whether it answers with
      a challenge. */
  function Words(user: string): string {
    NextToken(Uncommented(UserLine(user))).1
  }

  function Heard(user: string): string {
    NextToken(Words(user)).0
  }

  predicate Challenged(user: string) {
    UserRequest(Words(user), "").Challenge?
  }

  /** The server looks up the name it hears. */
  lemma HeardIsLookedUp(user: string, list: string)
    requires Challenged(user)
    ensures UserRequest(NextToken(Uncommented(UserLine(user))).1, list) == Challenge(Lookup(list, Heard(user)))
  {
    hide NextToken, Uncommented, UserLine, Lookup, SameWord;
  }

  /** The server is asked for exactly the client's name if and only if that is one word without a
      '#'; a word with one is answered by an error. */
  lemma UserLineRead(user: string)
    ensures NextToken(Uncommented(UserLine(user))).0 == "USER"
    ensures Challenged(user) && Heard(user) == user <==> UserName(user) && '#' !in user
    ensures UserName(user) && '#' in user ==> !Challenged(user)
  {
    hide NextToken, Uncommented, SameWord, IsDelimiter;
    var cut := Uncommented(user + " AUTH MD5\r\n");
    UncommentedBehind("USER ", user + " AUTH MD5\r\n");
    assert UserLine(user) == "USER " + (user + " AUTH MD5\r\n");
    assert "USER " + cut == "" + "USER" + (" " + cut);
    WordIsToken("", "USER", " " + cut) by { Spaces(); }
    assert Words(user) == " " + cut;
    if Challenged(user) && Heard(user) == user {
      TokenIsWord(" " + cut);
      NamedIsWord(user);
    }
    if UserName(user) {
      if '#' in user {
        HashCuts(user);
      } else {
        PlainName(user);
      }
    }
  }

  lemma Spaces()
    ensures IsDelimiter(' ') && !IsDelimiter('U') && !IsDelimiter('S') && !IsDelimiter('E') && !IsDelimiter('R')
  {}

  lemma NamedIsWord(user: string)
    requires Challenged(user)
    ensures Heard(user) != ""
  {}

  lemma PlainName(user: string)
    requires UserName(user) && '#' !in user
    ensures Challenged(user) && Heard(user) == user
  {
    hide NextToken, Uncommented, Lookup, SameWord;
    var line := UserLine(user);
    assert '#' !in line;
    NoComment(line);
    WordIsToken("", "USER", " " + user + " AUTH MD5\r\n");
    assert "" + "USER" + (" " + user + " AUTH MD5\r\n") == line;
    WordIsToken(" ", user, " AUTH MD5\r\n");
    LastWords();
    SpelledAuth();
    SpelledMd5();
  }

  /** Nothing of the line is left behind the '#'. */
  lemma HashCuts(user: string)
    requires UserName(user) && '#' in user
    ensures !Challenged(user)
  {
    hide NextToken, Uncommented, SameWord, Index;
    var k := Index(user, '#');
    var tail := user[k..] + " AUTH MD5\r\n";
    UncommentedBehind("USER " + user[..k], tail);
    assert UserLine(user) == "USER " + user[..k] + tail;
    assert Uncommented(tail) == "" by { CutAtOnce(tail); }
    WordIsToken("", "USER", " " + user[..k]);
    assert "USER " + user[..k] + "" == "" + "USER" + (" " + user[..k]);
    NoToken("");
    if k == 0 {
      NoToken(" ");
      assert " " + user[..k] == " ";
    } else {
      WordIsToken(" ", user[..k], "");
      assert " " + user[..k] + "" == " " + user[..k];
    }
  }

  lemma CutAtOnce(tail: string)
    requires tail != "" && tail[0] == '#'
    ensures Uncommented(tail) == ""
  {}

  lemma LastWords()
    ensures NextToken(" AUTH MD5\r\n") == ("AUTH", " MD5\r\n") && NextToken(" MD5\r\n").0 == "MD5"
  {
    hide NextToken;
    WordIsToken(" ", "AUTH", " MD5\r\n");
    assert " " + "AUTH" + " MD5\r\n" == " AUTH MD5\r\n";
    WordIsToken(" ", "MD5", "\r\n");
    assert " " + "MD5" + "\r\n" == " MD5\r\n";
  }

  lemma SpelledAuth()
    ensures SameWord("AUTH", "auth")
  {
    assert "AUTH"[1..] == "UTH" && "UTH"[1..] == "TH" && "TH"[1..] == "H" && "H"[1..] == "";
    assert "auth"[1..] == "uth" && "uth"[1..] == "th" && "th"[1..] == "h" && "h"[1..] == "";
  }

  lemma SpelledMd5()
    ensures SameWord("MD5", "md5") && !SameWord("MD5", "plaintext")
  {
    SameLength("MD5", "plaintext");
    assert "MD5"[1..] == "D5" && "D5"[1..] == "5" && "5"[1..] == "";
    assert "md5"[1..] == "d5" && "d5"[1..] == "5";
  }

  lemma HexIsWord(bs: seq<Byte>, upper: bool)
    requires bs != []
    ensures HexAll(bs, upper) != "" && '#' !in HexAll(bs, upper)
    ensures forall k :: 0 <= k < |HexAll(bs, upper)| ==> !IsDelimiter(HexAll(bs, upper)[k])
  {}

  lemma DigestRead(bs: seq<Byte>, upper: bool)
    requires |bs| == 16
    ensures StrToDigest(HexAll(bs, upper)) == Ok(bs)
  {
    hide Digits;
    assert HexAll(bs, upper)[..32] == HexAll(bs, upper);
    HexDigits(bs, upper);
    PackedHex(bs, upper);
  }

  /** The client understands the server's challenge. */
  lemma ChallengeRead(challenge: seq<Byte>, secret: seq<Byte>)
    requires |challenge| == 16
    ensures !Blank(ChallengeLine(challenge))
    ensures Response(ChallengeLine(challenge), secret) == Ok(HexAll(Digest(challenge + secret)) + "\r\n")
  {
    hide NextToken, Uncommented, SameWord, HexAll, StrToDigest, Digest, IsDelimiter;
    var hex := HexAll(challenge, false);
    var line := ChallengeLine(challenge);
    HexIsWord(challenge, false);
    assert '#' !in line;
    NoComment(line);
    ChallengeWords(hex);
    DigestRead(challenge, false);
    SameAsItself("+OK");
    SameAsItself("CHALLENGE");
  }

  lemma ChallengeWords(hex: string)
    requires UserName(hex)
    ensures NextToken("+OK CHALLENGE " + hex + "\r\n") == ("+OK", " CHALLENGE " + hex + "\r\n")
    ensures NextToken(" CHALLENGE " + hex + "\r\n") == ("CHALLENGE", " " + hex + "\r\n")
    ensures NextToken(" " + hex + "\r\n") == (hex, "\r\n") && NextToken("\r\n") == ("", "")
  {
    hide NextToken;
    WordIsToken("", "+OK", " CHALLENGE " + hex + "\r\n");
    assert "" + "+OK" + (" CHALLENGE " + hex + "\r\n") == "+OK CHALLENGE " + hex + "\r\n";
    WordIsToken(" ", "CHALLENGE", " " + hex + "\r\n");
    assert " " + "CHALLENGE" + (" " + hex + "\r\n") == " CHALLENGE " + hex + "\r\n";
    WordIsToken(" ", hex, "\r\n");
    NoToken("\r\n");
  }

  /** The server accepts exactly when the user's entry has a password whose hash, behind the
      challenge, hashes to what the client's does. */
  lemma AcceptsExactly(entries: seq<Entry>, user: string, secret: seq<Byte>, challenge: seq<Byte>)
    requires forall e :: e in entries ==> Proper(e)
    requires |challenge| == 16
    ensures var pass := Password(entries, user);
      Accepts(Lookup(Listed(entries), user), challenge, HexAll(Digest(challenge + secret)) + "\r\n") <==>
      (pass.Some? && Secret(pass.value).Ok? &&
       Digest(challenge + Secret(pass.value).value) == Digest(challenge + secret))
  {
    hide NextToken, Uncommented, HexAll, StrToDigest, Digest, Lookup, Password, UpToComma, Secret, IsDelimiter;
    var hash := Digest(challenge + secret);
    var hex := HexAll(hash);
    LookupPassword(entries, user);
    HexIsWord(hash, true);
    var line := hex + "\r\n";
    assert '#' !in line;
    NoComment(line);
    ResponseWord(hex);
    DigestRead(hash, true);
  }

  lemma ResponseWord(hex: string)
    requires UserName(hex)
    ensures NextToken(hex + "\r\n").0 == hex
  {
    hide NextToken;
    WordIsToken("", hex, "\r\n");
    assert "" + hex + "\r\n" == hex + "\r\n";
  }

  /** The four ways to write one password: as it is or hashed, at the server and at the client. */
  predicate Writes(pass: string, text: string) {
    var hash := Digest(BytesOf(text));
    !IsMd5(text) && (pass == text || pass == "md5=" + HexAll(hash, true) || pass == "md5=" + HexAll(hash, false))
  }

  lemma {:induction false} BlanksSkipped(blanks: seq<string>, line: string, secret: seq<Byte>)
    requires (forall k :: 0 <= k < |blanks| ==> Blank(blanks[k])) && !Blank(line)
    ensures Replied(blanks + [line], secret) == Response(line, secret)
    decreases |blanks|
  {
    hide Blank, Response;
    if blanks != [] {
      assert (blanks + [line])[1..] == blanks[1..] + [line];
      BlanksSkipped(blanks[1..], line, secret);
    }
  }

  lemma LoginUnderstood(user: string, pass: string)
    requires user != "" && ':' !in user && pass != "" && Secret(pass).Ok?
    ensures LoginOf(user + ":" + pass) == Ok((UserLine(user), Secret(pass).value))
  {
    hide Secret, Index;
    var credentials := user + ":" + pass;
    IndexIs(credentials, ':', |user|);
    assert credentials[..|user|] == user && credentials[|user| + 1..] == pass;
  }

  /** Whoever knows the password of the selected entry is let in, however each side writes it. */
  lemma KnownPasswordAccepted(entries: seq<Entry>, user: string, pass: string, text: string, challenge: seq<Byte>,
      blanks: seq<string>)
    requires forall e :: e in entries ==> Proper(e)
    requires user != "" && ':' !in user && '\n' !in user && |challenge| == 16
    requires Challenged(user)
    requires pass != "" && Writes(pass, text)
    requires Password(entries, Heard(user)).Some? && Writes(Password(entries, Heard(user)).value, text)
    requires forall k :: 0 <= k < |blanks| ==> Blank(blanks[k])
    ensures var login := LoginOf(user + ":" + pass);
      login.Ok? &&
      var requested := UserRequest(NextToken(Uncommented(login.value.0)).1, Listed(entries));
      requested.Challenge? &&
      var response := Replied(blanks + [ChallengeLine(challenge)], login.value.1);
      response.Ok? && Accepts(requested.pass, challenge, response.value)
  {
    hide *;
    HeardIsLookedUp(user, Listed(entries));
    SameSecret(pass, text);
    SameSecret(Password(entries, Heard(user)).value, text);
    LoginUnderstood(user, pass);
    ChallengeRead(challenge, Secret(pass).value);
    BlanksSkipped(blanks, ChallengeLine(challenge), Secret(pass).value);
    AcceptsExactly(entries, Heard(user), Secret(pass).value, challenge);
  }

  lemma SameSecret(pass: string, text: string)
    requires Writes(pass, text)
    ensures Secret(pass) == Secret(text) && Secret(pass).Ok?
  {
    hide Digest, HexAll, StrToDigest, IsMd5;
    HashedForm(text, true);
    HashedForm(text, false);
  }

  // ----- The two ends -----

  /** MD5Init, MD5Update, MD5Final on a password. */
  method HashText(text: string) returns (digest: seq<Byte>)
    requires |text| < WORD
    ensures digest == Digest(BytesOf(text))
  {
    var context := new Context();
    context.MD5Update(BytesOf(text));
    assert [] + BytesOf(text) == BytesOf(text);
    digest := context.MD5Final();
  }

  /** The challenge and then the password's hash. */
  method HashChallenge(challenge: seq<Byte>, secret: seq<Byte>) returns (digest: seq<Byte>)
    requires |challenge| == 16 && |secret| == 16
    ensures digest == Digest(challenge + secret)
  {
    var context := new Context();
    context.MD5Update(challenge);
    assert [] + challenge == challenge;
    context.MD5Update(secret);
    digest := context.MD5Final();
  }

  lemma SecretSize(pass: string)
    ensures Secret(pass).Ok? ==> |Secret(pass).value| == 16
  {}

  method PrintHex(bs: seq<Byte>, upper: bool) returns (text: string)
    ensures text == HexAll(bs, upper)
  {
    hide Hex2;
    text := "";
    var i := 0;
    while i < |bs|
      invariant i <= |bs| && text + HexAll(bs[i..], upper) == HexAll(bs, upper)
    {
      assert bs[i..][1..] == bs[i + 1..];
      text := text + Hex2(bs[i], upper);
      i := i + 1;
    }
    assert bs[i..] == [];
  }

  /** One of the two search loops of client_auth. */
  method SearchList(list: string, user: string) returns (pass: Option<string>)
    ensures pass == FindUser(list, user)
  {
    hide FindUser, Index, SameWord;
    var rest := list;
    while true
      invariant FindUser(rest, user) == FindUser(list, user)
      decreases |rest|
    {
      var c := Memchr(rest, ':');
      IndexIs(rest, ':', c);
      if c == |rest| {
        FindNothing(rest, user);
        return None;
      }
      ghost var comma := c + Index(rest[c..], ',');
      FindUnfold(rest, user, c, comma);
      if |user| == c {
        if SameWord(user, rest[..c]) {
          return Some(rest[c + 1..]);
        }
      }
      var k := Memchr(rest[c..], ',');
      IndexIs(rest[c..], ',', k);
      if c + k == |rest| {
        return None;
      }
      rest := rest[c + k + 1..];
    }
  }

  class AuthServer {
    const userpasswd: string
    var pass: Option<string>
    var challenge: seq<Byte>
    var authenticated: bool

    constructor (userpasswd: string)
      ensures this.userpasswd == userpasswd && !authenticated
    {
      this.userpasswd, pass, challenge, authenticated := userpasswd, None, [], false;
    }

    /** client_auth up to the challenge, `random` being what rand() gives. */
    method Request(rest: string, random: seq<Byte>) returns (reply: string)
      requires |random| == 16
      modifies this`pass, this`challenge
      ensures match UserRequest(rest, userpasswd)
        case Challenge(found) => pass == found && challenge == random && reply == ChallengeLine(random)
        case Plaintext => reply == "+OK #send password\r\n"
        case Protocol(why) => reply == why
    {
      hide NextToken, SameWord, FindUser, HexAll;
      var (user, more) := NextToken(rest);
      if user == "" {
        return "-ERR #missing username \r\n";
      }
      pass := SearchList(userpasswd, user);
      if pass.None? {
        pass := SearchList(userpasswd, "");
      }
      var (auth, last) := NextToken(more);
      if auth == "" {
        return "-ERR #missing auth type\r\n";
      }
      if !SameWord(auth, "auth") {
        return "-ERR #invalid auth type\r\n";
      }
      var how := NextToken(last).0;
      if how == "" {
        return "-ERR #missing auth type\r\n";
      }
      if SameWord(how, "plaintext") {
        return "+OK #send password\r\n";
      }
      if !SameWord(how, "md5") {
        return "-ERR #unknown authentication method\r\n";
      }
      challenge := random;
      var hex := PrintHex(challenge, false);
      return "+OK CHALLENGE " + hex + "\r\n";
    }

    /** client_auth from the client's line on. */
    method Check(line: string) returns (reply: string)
      requires |challenge| == 16 && |userpasswd| < WORD && (pass.Some? ==> |pass.value| < WORD)
      modifies this`authenticated
      ensures authenticated == (old(authenticated) || Accepts(pass, challenge, line))
      ensures reply == if Accepts(pass, challenge, line) then "+OK\r\n"
        else if NextToken(Uncommented(line)).0 == "" then "-ERR #need response\r\n"
        else "-ERR #authentication failed\r\n"
    {
      hide NextToken, Uncommented, StrToDigest, Digest, Secret, UpToComma;
      var word := NextToken(Uncommented(line)).0;
      if word == "" {
        return "-ERR #need response\r\n";
      }
      reply := "-ERR #authentication failed\r\n";
      if pass.None? {
        return;
      }
      var secret := StoredSecret(pass.value);
      if secret.Fail? {
        return;
      }
      SecretSize(UpToComma(pass.value));
      var expected := HashChallenge(challenge, secret.value);
      var received := MD5StrToDigest(word);
      if received.Fail? || received.value != expected {
        return;
      }
      authenticated := true;
      return "+OK\r\n";
    }
  }

  /** `pass` points into the list, at the entry's password and all that follows it. */
  method StoredSecret(pass: string) returns (secret: Result<seq<Byte>>)
    requires |pass| < WORD
    ensures secret == Secret(UpToComma(pass))
  {
    hide StrToDigest, Digest, IsMd5, Index;
    TailSecret(pass);
    if IsMd5(pass) {
      secret := MD5StrToDigest(pass[4..]);
    } else {
      var digest := HashText(UpToComma(pass));
      secret := Ok(digest);
    }
  }

  /** auth_server up to the user line. */
  method Login(credentials: string) returns (r: Result<(string, seq<Byte>)>)
    requires |credentials| < WORD
    ensures r == LoginOf(credentials)
  {
    hide StrToDigest, Digest, IsMd5, Index, UserLine;
    var c := Memchr(credentials, ':');
    IndexIs(credentials, ':', c);
    if c == |credentials| || c == 0 || c + 1 == |credentials| {
      return Fail(Unsupported);
    }
    var pass := credentials[c + 1..];
    var secret: Result<seq<Byte>>;
    if IsMd5(pass) {
      secret := MD5StrToDigest(pass[4..]);
    } else {
      var digest := HashText(pass);
      secret := Ok(digest);
    }
    if secret.Fail? {
      return Fail(Unsupported);
    }
    return Ok((UserLine(credentials[..c]), secret.value));
  }

  /** auth_server from the challenge on: blank lines are skipped, then the challenge is answered. */
  method Answer(secret: seq<Byte>, lines: seq<string>) returns (reply: Result<string>)
    requires |secret| == 16
    ensures reply == Replied(lines, secret)
  {
    hide NextToken, Uncommented, SameWord, StrToDigest, Digest, HexAll;
    var rest := lines;
    while rest != [] && NextToken(Uncommented(rest[0])).0 == ""
      invariant Replied(rest, secret) == Replied(lines, secret)
      decreases |rest|
    {
      rest := rest[1..];
    }
    if rest == [] {
      return Fail(LinkFailed);
    }
    var (ok, words) := NextToken(Uncommented(rest[0]));
    if !SameWord(ok, "+OK") {
      return Fail(LinkFailed);
    }
    var (name, more) := NextToken(words);
    if !SameWord(name, "CHALLENGE") {
      return Fail(LinkFailed);
    }
    var (hex, garbage) := NextToken(more);
    var challenge := MD5StrToDigest(hex);
    if challenge.Fail? {
      return Fail(LinkFailed);
    }
    if NextToken(garbage).0 != "" {
      return Fail(LinkFailed);
    }
    DigestSize(hex);
    var digest := HashChallenge(challenge.value, secret);
    var text := PrintHex(digest, true);
    return Ok(text + "\r\n");
  }

  lemma DigestSize(s: string)
    ensures StrToDigest(s).Ok? ==> |StrToDigest(s).value| == 16
  {}
}
