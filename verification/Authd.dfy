/** The authd conversation of `connect_authd` (openvixdisklib/nfc_auth.py): lines read one byte
    at a time, so that the stream is left exactly where the next protocol starts. */
module Authd {
  import opened Wire
  import opened Sockets
  import opened Client
  import opened Opening
  import opened OpenDisks

  const NEWLINE: byte := 10
  const CARRIAGE_RETURN: byte := 13
  const LINE_LIMIT: nat := 4096

  // ---------- lines ----------

  /** The index of the first newline from `pos` on; `|s|` when there is none. */
  function NewlineAt(s: Bytes, pos: nat): (n: nat)
    requires pos <= |s|
    ensures pos <= n <= |s| && (n < |s| ==> s[n] == NEWLINE)
    ensures forall i :: pos <= i < n ==> s[i] != NEWLINE
    decreases |s| - pos
  {
    if pos == |s| || s[pos] == NEWLINE then pos else NewlineAt(s, pos + 1)
  }

  /** A line is everything through its newline, which must be within the first 4096 bytes;
      otherwise 4097 bytes, or all that is left, are consumed and the call raises. */
  function ReadLine(s: Bytes, pos: nat): (r: Effect<Bytes>)
    requires pos <= |s|
    ensures pos <= r.pos <= |s|
  {
    var n := NewlineAt(s, pos);
    if n < |s| && n < pos + LINE_LIMIT then Effect(0, [], n + 1, Ok(s[pos..n + 1]))
    else Effect(0, [], Min(pos + LINE_LIMIT + 1, |s|), Err(ProtocolError))
  }

  /** A line is read exactly when a newline is among the next 4096 bytes; it ends with that
      newline, holds no other, and nothing after it is consumed. */
  lemma {:induction false} ReadsFirstLine(s: Bytes, pos: nat)
    requires pos <= |s|
    ensures ReadLine(s, pos).result.Ok? <==>
      exists n :: pos <= n < |s| && n < pos + LINE_LIMIT && s[n] == NEWLINE
    ensures ReadLine(s, pos).result.Ok? ==>
      var line, end := ReadLine(s, pos).result.value, ReadLine(s, pos).pos;
      && pos < end <= |s| && line == s[pos..end] && |line| <= LINE_LIMIT && s[end - 1] == NEWLINE
      && NEWLINE !in line[..|line| - 1]
    ensures ReadLine(s, pos).result.Err? ==> ReadLine(s, pos).pos == Min(pos + LINE_LIMIT + 1, |s|)
  {
    var n := NewlineAt(s, pos);
    if n < |s| && n < pos + LINE_LIMIT {
      assert s[n] == NEWLINE;
    }
  }

  /** `_readline`, up to the decoding of the bytes it returns. */
  method ReadLineFrom(sock: Socket) returns (r: Result<Bytes>)
    requires sock.Valid()
    modifies sock`pos
    ensures sock.Valid()
    ensures var eff := ReadLine(sock.inbox, old(sock.pos));
      r == eff.result && sock.pos == eff.pos
  {
    var buf: Bytes := [];
    while buf == [] || buf[|buf| - 1] != NEWLINE
      invariant sock.Valid() && old(sock.pos) <= sock.pos && |buf| <= LINE_LIMIT
      invariant buf == sock.inbox[old(sock.pos)..sock.pos]
      invariant forall i :: old(sock.pos) <= i < sock.pos - 1 ==> sock.inbox[i] != NEWLINE
      decreases |sock.inbox| - sock.pos
    {
      var chunk := sock.Recvn(1);
      if chunk.Err? {
        return Err(ProtocolError);
      }
      buf := buf + chunk.value;
      if |buf| > LINE_LIMIT {
        return Err(ProtocolError);
      }
    }
    assert NewlineAt(sock.inbox, old(sock.pos)) == sock.pos - 1;
    r := Ok(buf);
  }

  // ---------- decoding and status codes ----------

  /** `decode("ascii", "replace").rstrip("\r\n")` */
  function Text(line: Bytes): string {
    if line != [] && (line[|line| - 1] == NEWLINE || line[|line| - 1] == CARRIAGE_RETURN)
    then Text(line[..|line| - 1])
    else seq(|line|, i requires 0 <= i < |line| =>
                       if line[i] < 128 then line[i] as char else '\U{FFFD}')
  }

  predicate StartsWith(text: string, code: string) {
    |code| <= |text| && text[..|code|] == code
  }

  /** A status code has only plain characters, so it starts the decoded line exactly when its
      bytes start the raw one. */
  lemma {:induction false} CodeSurvivesDecoding(line: Bytes, code: string)
    requires Ascii(code).Some? && code != []
    requires forall i :: 0 <= i < |code| ==> code[i] != '\n' && code[i] != '\r'
    ensures StartsWith(Text(line), code) <==>
      |code| <= |line| && line[..|code|] == Ascii(code).value
    decreases |line|
  {
    var n, c := |code|, Ascii(code).value;
    if line != [] && (line[|line| - 1] == NEWLINE || line[|line| - 1] == CARRIAGE_RETURN) {
      var front := line[..|line| - 1];
      CodeSurvivesDecoding(front, code);
      if n == |line| {
        assert line[n - 1] != c[n - 1];
      } else if n < |line| {
        assert line[..n] == front[..n];
      }
    } else if n <= |line| {
      var t := Text(line);
      assert forall i :: 0 <= i < n ==> (t[i] == code[i] <==> line[i] == c[i]);
      if t[..n] == code {
        assert forall i :: 0 <= i < n ==> t[..n][i] == code[i];
        assert line[..n] == c;
      }
      if line[..n] == c {
        assert forall i :: 0 <= i < n ==> line[..n][i] == c[i];
        assert t[..n] == code;
      }
    }
  }

  // ---------- the conversation ----------

  const BANNER: Bytes := Ascii("BANNER \r\n").value

  const THUMBPRINT: Bytes := Ascii("THUMBPRINT_SHA2 ").value + Ascii("PlainText\r\n").value

  /** `nfcssl_service_name` */
  function NfcSslServiceName(service: string): string {
    if |service| >= 3 && service[|service| - 3..] == "ssl" then service else service + "ssl"
  }

  function ExpectCode(line: Result<Bytes>, code: string): Result<()> {
    match line
    case Err(e) => Err(e)
    case Ok(bytes) => if StartsWith(Text(bytes), code) then Ok(()) else Err(ProtocolError)
  }

  /** A command and the status line that answers it. */
  function Exchange(command: Bytes, code: string, s: Bytes, pos: nat): (r: Effect<()>)
    requires pos <= |s|
    ensures pos <= r.pos <= |s|
  {
    var line := ReadLine(s, pos);
    Effect(0, command, line.pos, ExpectCode(line.result, code))
  }

  function SessionExchange(sessionId: string, s: Bytes, pos: nat): (r: Effect<()>)
    requires pos <= |s|
    ensures pos <= r.pos <= |s|
  {
    match Ascii("SESSION " + sessionId + "\r\n")
    case None => Effect(0, [], pos, Err(ValueError))
    case Some(command) => Exchange(command + BANNER, "220", s, pos)
  }

  function ProxyExchange(service: string, s: Bytes, pos: nat): (r: Effect<()>)
    requires pos <= |s|
    ensures pos <= r.pos <= |s|
  {
    match Ascii("PROXY " + service + "\r\n")
    case None => Effect(0, [], pos, Err(ValueError))
    case Some(command) => Exchange(command, "200", s, pos)
  }

  /** Everything said over TLS. */
  function Conversation(sessionId: string, service: string, s: Bytes, pos: nat): (r: Effect<()>)
    requires pos <= |s|
    ensures pos <= r.pos <= |s|
  {
    var session := SessionExchange(sessionId, s, pos);
    var thumb := Then(session, Exchange(THUMBPRINT, "200", s, session.pos));
    Then(thumb, ProxyExchange(service, s, thumb.pos))
  }

  /** A completed conversation consumed three whole lines and not a byte more: the next byte of
      the stream is NFC's. */
  lemma {:induction false} ConversationEndsAtNfc(sessionId: string, service: string, s: Bytes, pos: nat)
    returns (a: nat, b: nat, c: nat)
    requires pos <= |s| && Conversation(sessionId, service, s, pos).result.Ok?
    ensures pos <= a < b < c < |s| && Conversation(sessionId, service, s, pos).pos == c + 1
    ensures a == NewlineAt(s, pos) && b == NewlineAt(s, a + 1) && c == NewlineAt(s, b + 1)
    ensures StartsWith(Text(s[pos..a + 1]), "220")
    ensures StartsWith(Text(s[a + 1..b + 1]), "200")
    ensures StartsWith(Text(s[b + 1..c + 1]), "200")
  {
    hide Ascii, Text, StartsWith, NewlineAt;
    a := NewlineAt(s, pos);
    b := NewlineAt(s, a + 1);
    c := NewlineAt(s, b + 1);
  }

  /** `s[pos..end]` is a line of at most 4096 bytes, newline included, that starts with `code`. */
  predicate LineAt(s: Bytes, pos: nat, end: nat, code: string) {
    && pos < end <= |s| && end - pos <= 4096 && s[end - 1] == 10
    && (forall i :: pos <= i < end - 1 ==> s[i] != 10) && StartsWith(Text(s[pos..end]), code)
  }

  lemma {:induction false} ExchangeIsAnswered(command: Bytes, code: string, s: Bytes, pos: nat, end: nat)
    requires pos <= |s|
    ensures var r := Exchange(command, code, s, pos);
      r.result.Ok? && r.pos == end <==> LineAt(s, pos, end, code)
  {
    hide Text, StartsWith;
    if LineAt(s, pos, end, code) {
      FirstNewline(s, pos, end - 1);
    }
  }

  /** A conversation that can be encoded succeeds exactly on the streams that begin with three
      lines, the first starting with 220 and the others with 200, and ends with the third. */
  lemma {:induction false} ConversationIsAnswered(sessionId: string, service: string, s: Bytes,
                                                  pos: nat, end: nat)
    requires pos <= |s|
    requires Ascii("SESSION " + sessionId + "\r\n").Some? && Ascii("PROXY " + service + "\r\n").Some?
    ensures var r := Conversation(sessionId, service, s, pos);
      r.result.Ok? && r.pos == end <==>
        exists a, b: nat ::
          LineAt(s, pos, a, "220") && LineAt(s, a, b, "200") && LineAt(s, b, end, "200")
  {
    hide Ascii, LineAt, Exchange;
    var first := Ascii("SESSION " + sessionId + "\r\n").value + BANNER;
    var last := Ascii("PROXY " + service + "\r\n").value;
    var x := Exchange(first, "220", s, pos);
    var y := Exchange(THUMBPRINT, "200", s, x.pos);
    ExchangeIsAnswered(first, "220", s, pos, x.pos);
    ExchangeIsAnswered(THUMBPRINT, "200", s, x.pos, y.pos);
    ExchangeIsAnswered(last, "200", s, y.pos, end);
    forall a: nat, b: nat | LineAt(s, pos, a, "220") && LineAt(s, a, b, "200") && LineAt(s, b, end, "200")
      ensures x.result.Ok? && y.result.Ok? && a == x.pos && b == y.pos
    {
      ExchangeIsAnswered(first, "220", s, pos, a);
      ExchangeIsAnswered(THUMBPRINT, "200", s, a, b);
    }
  }

  // ---------- the server's reading of the conversation ----------

  /** The command at the front of `b`, which a carriage return and a newline end, and what
      follows it. */
  function TakeCommand(b: Bytes): (r: Option<(string, Bytes)>)
    ensures r.Some? ==> |r.value.1| < |b|
  {
    var n := NewlineAt(b, 0);
    if n == |b| || n == 0 || b[n - 1] != CARRIAGE_RETURN then None
    else Some((Plain(b[..n - 1]), b[n + 1..]))
  }

  /** `b` as commands, line by line. */
  function ReadCommands(b: Bytes): Option<seq<string>>
    decreases |b|
  {
    if b == [] then Some([])
    else match TakeCommand(b)
         case None => None
         case Some((command, rest)) =>
           match ReadCommands(rest)
           case None => None
           case Some(commands) => Some([command] + commands)
  }

  lemma {:induction false} FirstNewline(b: Bytes, pos: nat, n: nat)
    requires pos <= n < |b| && b[n] == NEWLINE && forall i :: pos <= i < n ==> b[i] != NEWLINE
    ensures NewlineAt(b, pos) == n
  {
  }

  lemma {:induction false} TakeOfCommand(t: string, rest: Bytes)
    requires Ascii(t + "\r\n").Some? && '\n' !in t
    ensures TakeCommand(Ascii(t + "\r\n").value + rest) == Some((t, rest))
  {
    var line, n := Ascii(t + "\r\n").value, |t| + 1;
    var b := line + rest;
    assert forall i :: 0 <= i < |t| ==> b[i] == t[i] as int;
    assert b[|t|] == CARRIAGE_RETURN && b[n] == NEWLINE;
    FirstNewline(b, 0, n);
    assert Plain(b[..n - 1]) == t;
    assert b[n + 1..] == rest;
  }

  lemma {:induction false} ReadOfCommand(t: string, rest: Bytes, more: seq<string>)
    requires Ascii(t + "\r\n").Some? && '\n' !in t && ReadCommands(rest) == Some(more)
    ensures ReadCommands(Ascii(t + "\r\n").value + rest) == Some([t] + more)
  {
    hide Ascii, TakeCommand;
    TakeOfCommand(t, rest);
  }

  lemma {:induction false} FixedCommands()
    ensures Ascii("BANNER " + "\r\n") == Some(BANNER)
    ensures Ascii("THUMBPRINT_SHA2 PlainText" + "\r\n") == Some(THUMBPRINT)
  {
    assert "BANNER " + "\r\n" == "BANNER \r\n";
    assert "THUMBPRINT_SHA2 PlainText" + "\r\n" == "THUMBPRINT_SHA2 " + "PlainText\r\n";
    AsciiConcat("THUMBPRINT_SHA2 ", "PlainText\r\n");
  }

  lemma {:induction false} AsciiConcat(a: string, b: string)
    requires Ascii(a).Some? && Ascii(b).Some?
    ensures Ascii(a + b) == Some(Ascii(a).value + Ascii(b).value)
  {
    assert Ascii(a + b).Some?;
    assert Ascii(a + b).value == Ascii(a).value + Ascii(b).value;
  }

  lemma {:induction false} ConversationParts(sessionId: string, service: string, s: Bytes, pos: nat)
    requires pos <= |s| && Conversation(sessionId, service, s, pos).result.Ok?
    ensures Ascii("SESSION " + sessionId + "\r\n").Some? && Ascii("PROXY " + service + "\r\n").Some?
    ensures Conversation(sessionId, service, s, pos).sent
         == Ascii("SESSION " + sessionId + "\r\n").value
            + (BANNER + (THUMBPRINT + (Ascii("PROXY " + service + "\r\n").value + [])))
  {
    hide Ascii, ReadLine, ExpectCode;
  }

  /** What a completed conversation has sent: reading it line by line, the server finds exactly
      the four commands, with the session id in the first and the service in the last. */
  lemma {:induction false} ConversationSends(sessionId: string, service: string, s: Bytes, pos: nat)
    requires pos <= |s| && Conversation(sessionId, service, s, pos).result.Ok?
    requires '\n' !in sessionId && '\n' !in service
    ensures ReadCommands(Conversation(sessionId, service, s, pos).sent)
         == Some(["SESSION " + sessionId, "BANNER ", "THUMBPRINT_SHA2 PlainText", "PROXY " + service])
  {
    hide Ascii, Conversation, ReadCommands, BANNER, THUMBPRINT;
    ConversationParts(sessionId, service, s, pos);
    FixedCommands();
    var proxy := Ascii("PROXY " + service + "\r\n").value + [];
    NoCommands();
    ReadOfCommand("PROXY " + service, [], []);
    ReadOfCommand("THUMBPRINT_SHA2 PlainText", proxy, ["PROXY " + service] + []);
    ReadOfCommand("BANNER ", THUMBPRINT + proxy,
                  ["THUMBPRINT_SHA2 PlainText"] + (["PROXY " + service] + []));
    ReadOfCommand("SESSION " + sessionId, BANNER + (THUMBPRINT + proxy),
                  ["BANNER "] + (["THUMBPRINT_SHA2 PlainText"] + (["PROXY " + service] + [])));
    FourInARow("SESSION " + sessionId, "BANNER ", "THUMBPRINT_SHA2 PlainText", "PROXY " + service);
  }

  lemma {:induction false} FourInARow<T>(a: T, b: T, c: T, d: T)
    ensures [a] + ([b] + ([c] + ([d] + []))) == [a, b, c, d]
  {
  }

  lemma {:induction false} NoCommands()
    ensures ReadCommands([]) == Some([])
  {
  }

  // ---------- on the socket ----------

  method ExchangeOn(sock: Socket, command: Bytes, code: string) returns (r: Result<()>)
    requires sock.Valid() && command != []
    modifies sock`pos, sock`sent
    ensures sock.Valid()
    ensures Ran(Exchange(command, code, sock.inbox, old(sock.pos)), r, old(sock.sent), sock.sent,
                old(sock.pos), sock.pos)
  {
    var ok := sock.SendAll(command);
    if !ok {
      return Err(OsError);
    }
    var line := ReadLineFrom(sock);
    r := ExpectCode(line, code);
  }

  method StartSession(sock: Socket, sessionId: string) returns (r: Result<()>)
    requires sock.Valid()
    modifies sock`pos, sock`sent
    ensures sock.Valid()
    ensures Ran(SessionExchange(sessionId, sock.inbox, old(sock.pos)), r, old(sock.sent), sock.sent,
                old(sock.pos), sock.pos)
  {
    hide Text, StartsWith, Ascii, ReadLine;
    var command := Ascii("SESSION " + sessionId + "\r\n");
    if command.None? {
      return Err(ValueError);
    }
    var c := command.value;
    ghost var before := sock.sent;
    var ok := sock.SendAll(c);
    if !ok {
      Cut(before, [], c, BANNER, sock.sent, c + BANNER);
      return Err(OsError);
    }
    ok := sock.SendAll(BANNER);
    if !ok {
      assert c + BANNER == c + (BANNER + []);
      Cut(before, c, BANNER, [], sock.sent, c + BANNER);
      return Err(OsError);
    }
    var line := ReadLineFrom(sock);
    assert before + c + BANNER == before + (c + BANNER);
    r := ExpectCode(line, "220");
  }

  method Converse(sock: Socket, sessionId: string, service: string) returns (r: Result<()>)
    requires sock.Valid()
    modifies sock`pos, sock`sent
    ensures sock.Valid()
    ensures Ran(Conversation(sessionId, service, sock.inbox, old(sock.pos)), r, old(sock.sent),
                sock.sent, old(sock.pos), sock.pos)
  {
    hide SessionExchange, Exchange, Then, Ascii;
    ghost var s, sent0, pos0 := sock.inbox, sock.sent, sock.pos;
    ghost var session := SessionExchange(sessionId, s, pos0);
    ghost var thumbprint := Exchange(THUMBPRINT, "200", s, session.pos);
    ghost var thumb := Then(session, thumbprint);
    ThenFacts(session, thumbprint);
    ghost var proxy := ProxyExchange(service, s, thumb.pos);
    r := StartSession(sock, sessionId);
    if r.Err? {
      RanFailed(session, r, thumbprint, sent0, sock.sent, pos0, sock.pos);
      RanFailed(thumb, r, proxy, sent0, sock.sent, pos0, sock.pos);
      return;
    }
    ghost var r1, sent1, pos1 := r, sock.sent, sock.pos;
    r := ExchangeOn(sock, THUMBPRINT, "200");
    RanThen(session, r1, thumbprint, r, sent0, sent1, sock.sent, pos0, pos1, sock.pos);
    if r.Err? {
      RanFailed(thumb, r, proxy, sent0, sock.sent, pos0, sock.pos);
      return;
    }
    ghost var r2, sent2, pos2 := r, sock.sent, sock.pos;
    var command := Ascii("PROXY " + service + "\r\n");
    if command.None? {
      r := Err(ValueError);
    } else {
      r := ExchangeOn(sock, command.value, "200");
    }
    RanThen(thumb, r2, proxy, r, sent0, sent2, sock.sent, pos0, pos2, sock.pos);
  }

  /** `connect_authd`: banner in the clear, then TLS, then the conversation. Whether the TLS
      handshake and the thumbprint check succeed is up to the environment. On success the
      clear stream was left right after the banner line, where TLS starts, and the TLS stream
      right after the PROXY answer, where NFC starts; on failure nothing stays open. */
  method ConnectAuthd(raw: Socket, tls: Socket, wraps: bool, thumbprintOk: bool, sessionId: string,
                      ticketService: string, nfcSsl: bool)
    returns (r: Result<()>, wrapped: bool)
    requires raw.Valid() && tls.Valid() && raw != tls && raw.table == tls.table
    modifies raw`pos, raw.table, tls`pos, tls`sent
    ensures raw.Valid() && tls.Valid()
    ensures var banner := ReadLine(raw.inbox, old(raw.pos));
      && raw.pos == banner.pos
      && wrapped == (wraps && ExpectCode(banner.result, "220").Ok?)
    ensures var service0 := if ticketService == "" then "vpxa-nfc" else ticketService;
      var service := if nfcSsl then NfcSslServiceName(service0) else service0;
      wrapped && thumbprintOk ==>
        Ran(Conversation(sessionId, service, tls.inbox, old(tls.pos)), r, old(tls.sent), tls.sent,
            old(tls.pos), tls.pos)
    ensures r.Ok? ==> wrapped && thumbprintOk
    ensures r.Ok? && '\n' !in sessionId && '\n' !in ticketService ==>
      var service := if ticketService == "" then "vpxa-nfc" else ticketService;
      var proxy := if nfcSsl && !(|service| >= 3 && service[|service| - 3..] == "ssl")
                   then service + "ssl" else service;
      && old(tls.sent) <= tls.sent
      && ReadCommands(tls.sent[|old(tls.sent)|..])
         == Some(["SESSION " + sessionId, "BANNER ", "THUMBPRINT_SHA2 PlainText", "PROXY " + proxy])
    ensures raw.table.open
         == old(raw.table.open) - {raw} - (if wrapped then {tls} else {}) + (if r.Ok? then {tls} else {})
    ensures !wrapped || !thumbprintOk ==> tls.pos == old(tls.pos) && tls.sent == old(tls.sent)
  {
    hide Text, StartsWith, ReadLine, Conversation;
    var banner := ReadLineFrom(raw);
    var greeted := ExpectCode(banner, "220");
    wrapped := greeted.Ok? && wraps;
    // On failure the socket is closed; on success the TLS socket takes its descriptor over.
    raw.Close();
    if !wrapped {
      r := Err(ProtocolError);
      return;
    }
    tls.Connect();
    if !thumbprintOk {
      tls.Close();
      r := Err(ProtocolError);
      return;
    }
    var service := if ticketService == "" then "vpxa-nfc" else ticketService;
    if nfcSsl {
      service := NfcSslServiceName(service);
    }
    ghost var before, at := tls.sent, tls.pos;
    r := Converse(tls, sessionId, service);
    if r.Err? {
      tls.Close();
      return;
    }
    if '\n' !in sessionId && '\n' !in ticketService {
      ConversationSends(sessionId, service, tls.inbox, at);
      ghost var sent := Conversation(sessionId, service, tls.inbox, at).sent;
      assert (before + sent)[|before|..] == sent;
    }
  }
}
