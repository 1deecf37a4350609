/** The classic NFC handshake, the AIO session set-up and OPEN_FILE: what `open_disk` sends and
    what it makes of the replies, as functions of the arguments and the peer's stream; and
    the server's reading of those bytes (docs/nfc_open.md). */
module Opening {
  import opened Wire
  import opened Frames
  import opened Client
  import opened Utf8

  const NFC_MSG_SESSION_PARAMS: nat := 33
  const NFC_MSG_SESSION_PARAMS_REPLY: nat := 36
  const NFC_MSG_HANDSHAKE: nat := 43
  const NFC_MSG_VERSION: nat := 51
  const NFC_MSG_AIO_SESSION_OPEN: nat := 52
  const NFC_MSG_CONNECTION_DATA: nat := 54
  const NFC_MSG_SESSION_FEATURES: nat := 55
  const NFC_SESSION_FEATURE_INTERRUPTION_SWITCH: nat := 3
  const NFC_DISK: nat := 2
  const NFC_OPEN_FLAGS_READ_ONLY: nat := 0x1E
  const NFC_OPEN_FLAGS_READ_WRITE: nat := 0x1A
  const NFC_SECTOR_SIZE: nat := 512

  const PLAIN_TEXT: Bytes := Ascii("PlainText").value

  function Msg(msgType: nat, body: Bytes): (b: Bytes)
    requires |body| <= NFC_MSG_SIZE - 4
    ensures |b| == NFC_MSG_SIZE
  {
    ClassicMsg(msgType, body).value
  }

  /** `_recv_nfc_msg` and the check of its type: the body of a message of type `want`. */
  function RecvMsg(want: nat, s: Bytes, pos: nat): (r: Effect<Bytes>)
    requires pos <= |s|
    ensures pos <= r.pos <= |s|
    ensures r.result.Ok? ==> |r.result.value| == NFC_MSG_SIZE - 4
  {
    if pos + NFC_MSG_SIZE > |s| then Effect(0, [], |s|, Err(ProtocolError))
    else
      var end := pos + NFC_MSG_SIZE;
      Effect(0, [], end,
             if GetU32(s[pos..end], 0) != want then Err(ProtocolError)
             else Ok(s[pos..end][4..]))
  }

  // ---------- the handshake, in its three exchanges ----------

  const GREETING: Bytes := Msg(NFC_MSG_HANDSHAKE, PLAIN_TEXT) + Msg(NFC_MSG_SESSION_PARAMS, [])

  function Greet(s: Bytes, pos: nat): (r: Effect<()>)
    requires pos <= |s|
    ensures pos <= r.pos <= |s|
  {
    var got := RecvMsg(NFC_MSG_SESSION_PARAMS_REPLY, s, pos);
    Effect(0, GREETING, got.pos, if got.result.Ok? then Ok(()) else Err(got.result.error))
  }

  function AgreeVersion(version: int, s: Bytes, pos: nat): (r: Effect<()>)
    requires pos <= |s|
    ensures pos <= r.pos <= |s|
  {
    match Pack([U32(version)])
    case None => Effect(0, [], pos, Err(StructError))
    case Some(v) =>
      var got := RecvMsg(NFC_MSG_VERSION, s, pos);
      Effect(0, Msg(NFC_MSG_VERSION, Le(4, version)), got.pos,
             match got.result
             case Err(e) => Err(e)
             case Ok(body) => if GetU32(body, 0) < 3 then Err(ProtocolError) else Ok(()))
  }

  /** The connection data frame, the two raw strings it announces, features, session open. */
  function Introduction(name: Bytes, opName: Bytes): Bytes {
    Msg(NFC_MSG_CONNECTION_DATA, Le(4, |name|) + Le(4, |opName|))
    + (name + (opName
       + (Msg(NFC_MSG_SESSION_FEATURES, Le(4, NFC_SESSION_FEATURE_INTERRUPTION_SWITCH))
          + Msg(NFC_MSG_AIO_SESSION_OPEN, []))))
  }

  function Introduce(name: string, opName: string, s: Bytes, pos: nat): (r: Effect<()>)
    requires pos <= |s|
    ensures pos <= r.pos <= |s|
  {
    match (Ascii(name), Ascii(opName))
    case (Some(n), Some(o)) =>
      if |n| >= U32_BOUND || |o| >= U32_BOUND then Effect(0, [], pos, Err(StructError))
      else
        var got := RecvMsg(NFC_MSG_AIO_SESSION_OPEN, s, pos);
        Effect(0, Introduction(n, o), got.pos,
               if got.result.Ok? then Ok(()) else Err(got.result.error))
    case _ => Effect(0, [], pos, Err(ValueError))
  }

  /** Two steps in a row, the second only after the first succeeded. */
  function Then<S, T>(first: Effect<S>, second: Effect<T>): Effect<T> {
    if first.result.Err? then Effect(first.opId, first.sent, first.pos, Err(first.result.error))
    else Effect(second.opId, first.sent + second.sent, second.pos, second.result)
  }

  function Handshake(name: string, opName: string, version: int, s: Bytes, pos: nat): (r: Effect<()>)
    requires pos <= |s|
    ensures pos <= r.pos <= |s|
  {
    var greeted := Greet(s, pos);
    var agreed := Then(greeted, AgreeVersion(version, s, greeted.pos));
    Then(agreed, Introduce(name, opName, s, agreed.pos))
  }

  // ---------- the AIO session and OPEN_FILE ----------

  function PrepareFields(bufferSize: int, bufferCount: int): seq<Field> {
    [U32(0), U32(bufferSize), U32(bufferCount), U32(0)]
  }

  /** `_aio_prepare` on a new disk */
  function Prepare(bufferSize: int, bufferCount: int, s: Bytes, pos: nat): (r: Effect<Bytes>)
    requires pos <= |s|
    ensures pos <= r.pos <= |s|
  {
    match Pack(PrepareFields(bufferSize, bufferCount))
    case None => Effect(0, [], pos, Err(StructError))
    case Some(payload) =>
      var a := Roundtrip(NFC_AIO_MSG_OPEN_SESSION, payload, [], 0, s, pos);
      var b := Then(a, Roundtrip(NFC_AIO_MSG_SET_SOCK_OPTS, Zeros(12), [], 1, s, a.pos));
      Then(b, Roundtrip(NFC_AIO_MSG_SET_RES_POOL, Le(4, 1), [], 2, s, b.pos))
  }

  function OpenFields(pathLen: int, flags: int): seq<Field> {
    [U32(pathLen), U32(0), U32(0), U32(0), U32(NFC_DISK), U32(flags)]
  }

  function OpenFlags(readOnly: bool): nat {
    if readOnly then NFC_OPEN_FLAGS_READ_ONLY else NFC_OPEN_FLAGS_READ_WRITE
  }

  datatype Opened = Opened(handle: nat, sectorSize: nat)

  /** `_parse_open_reply`: the handle, and a sector size that is never 0. */
  function ParseOpenReply(body: Bytes): (r: Result<Opened>)
    ensures r.Ok? ==> r.value.sectorSize >= 1 && r.value.handle < U64_BOUND
    ensures r.Err? ==> r.error == ProtocolError
  {
    if |body| < 40 then Err(ProtocolError)
    else if GetU32(body, 16) != NFC_DISK then Err(ProtocolError)
    else
      var n := GetU32(body, 36);
      Ok(Opened(GetU64(body, 8), if n == 0 then NFC_SECTOR_SIZE else n))
  }

  /** Which replies are accepted, and what they say, field by field: at least 40 bytes of file
      type 2; the handle is the 64-bit number at 8, and the sector size the one at 36, where 0
      stands for 512. */
  lemma {:induction false} OpenReplyFields(body: Bytes)
    ensures ParseOpenReply(body).Ok? <==> |body| >= 40 && GetU32(body, 16) == 2
    ensures ParseOpenReply(body).Ok? ==>
      var o := ParseOpenReply(body).value;
      && o.handle == GetU64(body, 8)
      && (GetU32(body, 36) == 0 ==> o.sectorSize == 512)
      && (GetU32(body, 36) != 0 ==> o.sectorSize == GetU32(body, 36))
  {
  }

  /** The path is encoded only here, after the frames before it went out. */
  function OpenFile(path: Text, readOnly: bool, s: Bytes, pos: nat): (r: Effect<Opened>)
    requires pos <= |s|
    ensures pos <= r.pos <= |s|
    ensures r.result.Ok? ==> r.result.value.sectorSize >= 1
  {
    match EncodeText(path)
    case None => Effect(3, [], pos, Err(ValueError))
    case Some(encoded) => OpenEncoded(encoded, readOnly, s, pos)
  }

  function OpenEncoded(path: Bytes, readOnly: bool, s: Bytes, pos: nat): (r: Effect<Opened>)
    requires pos <= |s|
    ensures pos <= r.pos <= |s|
    ensures r.result.Ok? ==> r.result.value.sectorSize >= 1
  {
    match Pack(OpenFields(|path|, OpenFlags(readOnly)))
    case None => Effect(3, [], pos, Err(StructError))
    case Some(payload) =>
      var got := Roundtrip(NFC_AIO_MSG_OPEN_FILE, payload + Zeros(36), path, 3, s, pos);
      Effect(got.opId, got.sent, got.pos,
             match got.result
             case Err(e) => Err(e)
             case Ok(body) => ParseOpenReply(body))
  }

  datatype OpenArgs = OpenArgs(
    name: string, opName: string, version: int, readOnly: bool, compression: int,
    bufferSize: int, bufferCount: int, path: Text)

  /** The argument checks of `open_disk`, before it touches the socket. */
  function CheckArgs(a: OpenArgs): Option<Error> {
    if a.bufferSize < 1 || a.bufferCount < 1 then Some(ValueError)
    else if a.compression != NFC_COMPRESSION_NONE && a.compression != NFC_COMPRESSION_FASTLZ then
      Some(NotImplementedError)
    else None
  }

  /** `open_disk` on its taken-over socket, after the argument checks. */
  function Open(a: OpenArgs, s: Bytes, pos: nat): (r: Effect<Opened>)
    requires pos <= |s|
    ensures pos <= r.pos <= |s|
    ensures r.result.Ok? ==> r.result.value.sectorSize >= 1
  {
    var shaken := Handshake(a.name, a.opName, a.version, s, pos);
    var prepared := Then(shaken, Prepare(a.bufferSize, a.bufferCount, s, shaken.pos));
    Then(prepared, OpenFile(a.path, a.readOnly, s, prepared.pos))
  }

  // ---------- the server's reading of what the client sends ----------

  /** The classic message at the front of `b`: its body, and what follows it. */
  function TakeMsg(want: nat, b: Bytes): (r: Option<(Bytes, Bytes)>)
    ensures r.Some? ==> |r.value.0| == NFC_MSG_SIZE - 4
  {
    if |b| < NFC_MSG_SIZE || GetU32(b, 0) != want then None
    else Some((b[4..NFC_MSG_SIZE], b[NFC_MSG_SIZE..]))
  }

  datatype Hello = Hello(version: nat, name: string, opName: string, rest: Bytes)

  function ReadHello(b: Bytes): Option<Hello> {
    match TakeMsg(43, b)
    case None => None
    case Some((plain, b1)) =>
      if Plain(plain[..9]) != "PlainText" then None
      else match TakeMsg(33, b1)
           case None => None
           case Some((_, b2)) =>
             match TakeMsg(51, b2)
             case None => None
             case Some((version, b3)) => ReadNames(GetU32(version, 0), b3)
  }

  /** The connection data: a frame with two lengths, then that many raw bytes of each name. */
  function ReadNames(version: nat, b: Bytes): Option<Hello> {
    match TakeMsg(54, b)
    case None => None
    case Some((lengths, b1)) =>
      var n, m := GetU32(lengths, 0), GetU32(lengths, 4);
      if |b1| < n + m then None
      else match TakeMsg(55, b1[n + m..])
           case None => None
           case Some((features, b2)) =>
             if GetU32(features, 0) != 3 then None
             else match TakeMsg(52, b2)
                  case None => None
                  case Some((_, rest)) => Some(Hello(version, Plain(b1[..n]), Plain(b1[n..n + m]), rest))
  }

  lemma {:induction false} TakeOfMsg(msgType: nat, body: Bytes, rest: Bytes)
    requires msgType < U32_BOUND && |body| <= NFC_MSG_SIZE - 4
    ensures var r := TakeMsg(msgType, Msg(msgType, body) + rest);
      r.Some? && r.value.0[..|body|] == body && r.value.1 == rest
  {
    var m := Msg(msgType, body);
    assert (m + rest)[0..4] == Le(4, msgType);
    PowersOf256();
    UnLeOfLe(4, msgType);
    assert (m + rest)[4..NFC_MSG_SIZE][..|body|] == body;
    assert (m + rest)[NFC_MSG_SIZE..] == rest;
  }

  lemma {:induction false} U32OfLe(b: Bytes, off: nat, v: nat)
    requires off + 4 <= |b| && v < U32_BOUND && b[off..off + 4] == Le(4, v)
    ensures GetU32(b, off) == v
  {
    PowersOf256();
    UnLeOfLe(4, v);
  }

  lemma {:induction false} NamesRoundTrip(version: nat, name: Bytes, opName: Bytes, rest: Bytes)
    requires |name| < U32_BOUND && |opName| < U32_BOUND
    ensures ReadNames(version, Introduction(name, opName) + rest)
         == Some(Hello(version, Plain(name), Plain(opName), rest))
  {
    hide Msg, TakeMsg, Le, GetU32;
    var lengths := Le(4, |name|) + Le(4, |opName|);
    var data := Msg(NFC_MSG_CONNECTION_DATA, lengths);
    var features := Msg(NFC_MSG_SESSION_FEATURES, Le(4, NFC_SESSION_FEATURE_INTERRUPTION_SWITCH));
    var open := Msg(NFC_MSG_AIO_SESSION_OPEN, []);
    var b1 := name + (opName + (features + (open + rest)));
    assert Introduction(name, opName) + rest == data + b1;
    TakeOfMsg(NFC_MSG_CONNECTION_DATA, lengths, b1);
    var got := TakeMsg(NFC_MSG_CONNECTION_DATA, data + b1).value.0;
    assert got[..8] == lengths && got[0..4] == got[..8][0..4] && got[4..8] == got[..8][4..8];
    U32OfLe(got, 0, |name|);
    U32OfLe(got, 4, |opName|);
    var n, m := |name|, |opName|;
    assert b1[..n] == name && b1[n..n + m] == opName && b1[n + m..] == features + (open + rest);
    TakeOfMsg(NFC_MSG_SESSION_FEATURES, Le(4, NFC_SESSION_FEATURE_INTERRUPTION_SWITCH), open + rest);
    var f := TakeMsg(NFC_MSG_SESSION_FEATURES, features + (open + rest)).value.0;
    assert f[0..4] == f[..4];
    U32OfLe(f, 0, NFC_SESSION_FEATURE_INTERRUPTION_SWITCH);
    TakeOfMsg(NFC_MSG_AIO_SESSION_OPEN, [], rest);
  }

  function HelloBytes(version: nat, name: Bytes, opName: Bytes): Bytes {
    GREETING + Msg(NFC_MSG_VERSION, Le(4, version)) + Introduction(name, opName)
  }

  /** The whole handshake reads back: version and both names, and the stream is then at the
      first AIO frame. */
  lemma {:induction false} HelloRoundTrip(version: nat, name: Bytes, opName: Bytes, rest: Bytes)
    requires |name| < U32_BOUND && |opName| < U32_BOUND && version < U32_BOUND
    ensures ReadHello(HelloBytes(version, name, opName) + rest)
         == Some(Hello(version, Plain(name), Plain(opName), rest))
  {
    hide Msg, TakeMsg, Le, GetU32, Introduction, ReadNames;
    var b3 := Introduction(name, opName) + rest;
    var b2 := Msg(NFC_MSG_VERSION, Le(4, version)) + b3;
    var b1 := Msg(NFC_MSG_SESSION_PARAMS, []) + b2;
    assert HelloBytes(version, name, opName) + rest
        == Msg(NFC_MSG_HANDSHAKE, PLAIN_TEXT) + b1;
    TakeOfMsg(NFC_MSG_HANDSHAKE, PLAIN_TEXT, b1);
    TakeOfMsg(NFC_MSG_SESSION_PARAMS, [], b2);
    TakeOfMsg(NFC_MSG_VERSION, Le(4, version), b3);
    var v := TakeMsg(NFC_MSG_VERSION, b2).value.0;
    assert v[0..4] == v[..4];
    U32OfLe(v, 0, version);
    NamesRoundTrip(version, name, opName, rest);
  }

  /** What a server learns from a client that opens a disk. */
  datatype OpenRequest = OpenRequest(
    version: nat, name: string, opName: string, bufferSize: nat, bufferCount: nat, readOnly: bool,
    path: Text)

  function ReadOpen(b: Bytes): Option<OpenRequest> {
    match ReadHello(b)
    case None => None
    case Some(hello) =>
      match Parse(hello.rest)
      case None => None
      case Some(fs) =>
        if |fs| == 4 && fs[0].msgType == 2 && fs[1].msgType == 9 && fs[2].msgType == 22
           && fs[3].msgType == 4 && (forall k :: 0 <= k < 4 ==> fs[k].opId == k)
           && |fs[0].payload| == 16 && |fs[3].payload| == 60
           && GetU32(fs[3].payload, 0) == |fs[3].extra| && GetU32(fs[3].payload, 16) == 2
           && GetU32(fs[3].payload, 20) in {0x1E, 0x1A} && DecodeText(fs[3].extra).Some?
        then Some(OpenRequest(hello.version, hello.name, hello.opName, GetU32(fs[0].payload, 4),
                              GetU32(fs[0].payload, 8), GetU32(fs[3].payload, 20) == 0x1E,
                              DecodeText(fs[3].extra).value))
        else None
  }

  lemma {:induction false} HandshakeSent(name: string, opName: string, version: int, s: Bytes, pos: nat)
    requires pos <= |s| && Handshake(name, opName, version, s, pos).result.Ok?
    ensures Ascii(name).Some? && Ascii(opName).Some? && 0 <= version < U32_BOUND
    ensures |Ascii(name).value| < U32_BOUND && |Ascii(opName).value| < U32_BOUND
    ensures Handshake(name, opName, version, s, pos).sent
         == HelloBytes(version, Ascii(name).value, Ascii(opName).value)
  {
    hide Msg, Le, Introduction, RecvMsg, Ascii;
    var fs := [U32(version)];
    assert Pack(fs).Some? ==> fs[0].Fits();
  }

  lemma {:induction false} PreparePayload(bufferSize: int, bufferCount: int)
    requires Pack(PrepareFields(bufferSize, bufferCount)).Some?
    ensures var p := Pack(PrepareFields(bufferSize, bufferCount)).value;
      && |p| == 16 && GetU32(p, 0) == 0 && GetU32(p, 4) == bufferSize && GetU32(p, 8) == bufferCount
      && GetU32(p, 12) == 0
  {
    var fs := PrepareFields(bufferSize, bufferCount);
    assert Offset(fs, 1) == 4 && Offset(fs, 2) == 8 && Offset(fs, 3) == 12 && Offset(fs, 4) == 16;
    UnpackOfPack(fs, [], 0);
    UnpackOfPack(fs, [], 1);
    UnpackOfPack(fs, [], 2);
    UnpackOfPack(fs, [], 3);
    assert Pack(fs).value + [] == Pack(fs).value;
  }

  lemma {:induction false} PrepareFits(bufferSize: int, bufferCount: int, s: Bytes, pos: nat)
    requires pos <= |s| && Prepare(bufferSize, bufferCount, s, pos).result.Ok?
    ensures Pack(PrepareFields(bufferSize, bufferCount)).Some?
  {
    hide Roundtrip, Pack;
  }

  lemma {:induction false} PrepareSent(bufferSize: int, bufferCount: int, s: Bytes, pos: nat)
    returns (f0: AioFrame, f1: AioFrame, f2: AioFrame)
    requires pos <= |s| && Prepare(bufferSize, bufferCount, s, pos).result.Ok?
    ensures WellFormed(f0) && WellFormed(f1) && WellFormed(f2)
    ensures Prepare(bufferSize, bufferCount, s, pos).sent == f0.Encode() + f1.Encode() + f2.Encode()
    ensures Prepare(bufferSize, bufferCount, s, pos).opId == 3
    ensures f0.msgType == 2 && f0.opId == 0 && |f0.payload| == 16 && f0.extra == []
    ensures GetU32(f0.payload, 0) == 0 && GetU32(f0.payload, 4) == bufferSize
    ensures GetU32(f0.payload, 8) == bufferCount && GetU32(f0.payload, 12) == 0
    ensures f1.msgType == 9 && f1.opId == 1 && f1.payload == Zeros(12) && f1.extra == []
    ensures f2.msgType == 22 && f2.opId == 2 && f2.extra == []
    ensures |f2.payload| == 4 && GetU32(f2.payload, 0) == 1
  {
    hide Prepare, Roundtrip, Zeros, Le, Pack, PrepareFields, GetU32, AioFrame.Encode;
    PrepareFits(bufferSize, bufferCount, s, pos);
    PreparePayload(bufferSize, bufferCount);
    var payload := Pack(PrepareFields(bufferSize, bufferCount)).value;
    f0 := AioFrame(NFC_AIO_MSG_OPEN_SESSION, 0, payload, []);
    f1 := AioFrame(NFC_AIO_MSG_SET_SOCK_OPTS, 1, Zeros(12), []);
    f2 := AioFrame(NFC_AIO_MSG_SET_RES_POOL, 2, Le(4, 1), []);
    U32OfLe(f2.payload, 0, 1);
    var a, b := PrepareParts(bufferSize, bufferCount, payload, s, pos);
    RoundtripSent(f0, s, pos);
    RoundtripSent(f1, s, a);
    RoundtripSent(f2, s, b);
  }

  lemma {:induction false} PrepareParts(bufferSize: int, bufferCount: int, payload: Bytes, s: Bytes,
                                        pos: nat)
    returns (p1: nat, p2: nat)
    requires pos <= |s| && Prepare(bufferSize, bufferCount, s, pos).result.Ok?
    requires Pack(PrepareFields(bufferSize, bufferCount)) == Some(payload)
    ensures p1 <= |s| && p2 <= |s|
    ensures var a := Roundtrip(NFC_AIO_MSG_OPEN_SESSION, payload, [], 0, s, pos);
      var b := Roundtrip(NFC_AIO_MSG_SET_SOCK_OPTS, Zeros(12), [], 1, s, p1);
      var c := Roundtrip(NFC_AIO_MSG_SET_RES_POOL, Le(4, 1), [], 2, s, p2);
      && a.result.Ok? && b.result.Ok? && c.result.Ok?
      && Prepare(bufferSize, bufferCount, s, pos).sent == a.sent + b.sent + c.sent
      && Prepare(bufferSize, bufferCount, s, pos).opId == 3
  {
    hide Roundtrip, Zeros, Le, Pack, PrepareFields;
    p1 := Roundtrip(NFC_AIO_MSG_OPEN_SESSION, payload, [], 0, s, pos).pos;
    p2 := Roundtrip(NFC_AIO_MSG_SET_SOCK_OPTS, Zeros(12), [], 1, s, p1).pos;
  }

  lemma {:induction false} OpenPayload(pathLen: nat, readOnly: bool)
    requires Pack(OpenFields(pathLen, OpenFlags(readOnly))).Some?
    ensures IsOpenPayload(Pack(OpenFields(pathLen, OpenFlags(readOnly))).value + Zeros(36), pathLen,
                          readOnly)
  {
    var fs := OpenFields(pathLen, OpenFlags(readOnly));
    assert Offset(fs, 1) == 4 && Offset(fs, 2) == 8 && Offset(fs, 3) == 12 && Offset(fs, 4) == 16
        && Offset(fs, 5) == 20 && Offset(fs, 6) == 24;
    UnpackOfPack(fs, Zeros(36), 0);
    UnpackOfPack(fs, Zeros(36), 1);
    UnpackOfPack(fs, Zeros(36), 2);
    UnpackOfPack(fs, Zeros(36), 3);
    UnpackOfPack(fs, Zeros(36), 4);
    UnpackOfPack(fs, Zeros(36), 5);
    assert (Pack(fs).value + Zeros(36))[24..] == Zeros(36);
  }

  lemma {:induction false} OpenFileSent(path: Text, readOnly: bool, s: Bytes, pos: nat)
    returns (f: AioFrame)
    requires pos <= |s| && OpenFile(path, readOnly, s, pos).result.Ok?
    ensures WellFormed(f) && OpenFile(path, readOnly, s, pos).sent == f.Encode()
    ensures OpenFile(path, readOnly, s, pos).opId == 4
    ensures f.msgType == 4 && f.opId == 3 && IsOpenPayload(f.payload, |f.extra|, readOnly)
    ensures EncodeText(path) == Some(f.extra)
  {
    var extra := EncodeText(path).value;
    OpenPayload(|extra|, readOnly);
    var payload := Pack(OpenFields(|extra|, OpenFlags(readOnly))).value + Zeros(36);
    f := AioFrame(NFC_AIO_MSG_OPEN_FILE, 3, payload, extra);
    hide EncodeText;
    hide Roundtrip, Zeros, Pack, OpenFields, GetU32, AioFrame.Encode, ParseOpenReply, OpenFlags;
    RoundtripSent(f, s, pos);
  }

  lemma {:induction false} JoinFour(a: AioFrame, b: AioFrame, c: AioFrame, d: AioFrame)
    requires a.Sendable() && b.Sendable() && c.Sendable() && d.Sendable()
    ensures AllSendable([a, b, c, d])
    ensures EncodeAll([a, b, c, d]) == a.Encode() + b.Encode() + c.Encode() + d.Encode()
  {
    hide EncodeAll, AioFrame.Encode;
    EncodeNone();
    EncodeSnoc([], a);
    EncodeSnoc([a], b);
    EncodeSnoc([a, b], c);
    EncodeSnoc([a, b, c], d);
    assert [] + [a] == [a] && [a] + [b] == [a, b] && [a, b] + [c] == [a, b, c];
    assert [a, b, c] + [d] == [a, b, c, d];
    assert [] + a.Encode() == a.Encode();
  }

  lemma {:induction false} EncodeNone()
    ensures EncodeAll([]) == []
  {
  }

  lemma {:induction false} EncodeSnoc(fs: seq<AioFrame>, f: AioFrame)
    requires AllSendable(fs) && f.Sendable()
    ensures AllSendable(fs + [f]) && EncodeAll(fs + [f]) == EncodeAll(fs) + f.Encode()
  {
    EncodeAllConcat(fs, [f]);
    assert EncodeAll([f]) == f.Encode() + EncodeAll([]);
  }

  /** The four requests of an open, in order and under the ids 0 to 3, with every field. */
  ghost predicate IsOpenRequest(a: OpenArgs, fs: seq<AioFrame>) {
    && |fs| == 4 && AllWellFormed(fs) && (forall k :: 0 <= k < 4 ==> fs[k].opId == k)
    && fs[0].msgType == 2 && fs[1].msgType == 9 && fs[2].msgType == 22 && fs[3].msgType == 4
    && |fs[0].payload| == 16 && GetU32(fs[0].payload, 0) == 0
    && GetU32(fs[0].payload, 4) == a.bufferSize && GetU32(fs[0].payload, 8) == a.bufferCount
    && GetU32(fs[0].payload, 12) == 0
    && fs[1].payload == Zeros(12) && |fs[2].payload| == 4 && GetU32(fs[2].payload, 0) == 1
    && fs[0].extra == fs[1].extra == fs[2].extra == []
    && EncodeText(a.path) == Some(fs[3].extra)
    && IsOpenPayload(fs[3].payload, |fs[3].extra|, a.readOnly)
  }

  /** The 60 bytes of OPEN_FILE: the length of the path, the file type 2, flags, and zeros. */
  predicate IsOpenPayload(payload: Bytes, pathLen: nat, readOnly: bool) {
    && |payload| == 60 && GetU32(payload, 0) == pathLen && GetU32(payload, 16) == 2
    && GetU32(payload, 20) == (if readOnly then 0x1E else 0x1A)
    && GetU32(payload, 4) == GetU32(payload, 8) == GetU32(payload, 12) == 0
    && payload[24..] == Zeros(36)
  }

  /** What a successful open has sent: the handshake, and those four requests. */
  lemma {:induction false} OpenSends(a: OpenArgs, s: Bytes, pos: nat) returns (fs: seq<AioFrame>)
    requires pos <= |s| && Open(a, s, pos).result.Ok?
    ensures Ascii(a.name).Some? && Ascii(a.opName).Some? && 0 <= a.version < U32_BOUND
    ensures |Ascii(a.name).value| < U32_BOUND && |Ascii(a.opName).value| < U32_BOUND
    ensures AllSendable(fs) && IsOpenRequest(a, fs) && Open(a, s, pos).opId == 4
    ensures Open(a, s, pos).sent
         == HelloBytes(a.version, Ascii(a.name).value, Ascii(a.opName).value) + EncodeAll(fs)
  {
    hide Handshake, Prepare, OpenFile, AioFrame.Encode, HelloBytes, Ascii, OpenFlags, GetU32;
    hide EncodeAll, WellFormed, EncodeText;
    var shaken := Handshake(a.name, a.opName, a.version, s, pos);
    var prepared := Prepare(a.bufferSize, a.bufferCount, s, shaken.pos);
    assert shaken.result.Ok? && prepared.result.Ok?;
    HandshakeSent(a.name, a.opName, a.version, s, pos);
    var f0, f1, f2 := PrepareSent(a.bufferSize, a.bufferCount, s, shaken.pos);
    var f3 := OpenFileSent(a.path, a.readOnly, s, prepared.pos);
    fs := [f0, f1, f2, f3];
    assert f0.Sendable() && f1.Sendable() && f2.Sendable() && f3.Sendable() by {
      AreSendable(f0, f1, f2, f3);
    }
    JoinFour(f0, f1, f2, f3);
    var rest := f0.Encode() + f1.Encode() + f2.Encode() + f3.Encode();
    assert Open(a, s, pos).sent == shaken.sent + rest;
  }

  lemma {:induction false} AreSendable(a: AioFrame, b: AioFrame, c: AioFrame, d: AioFrame)
    requires WellFormed(a) && WellFormed(b) && WellFormed(c) && WellFormed(d)
    ensures a.Sendable() && b.Sendable() && c.Sendable() && d.Sendable()
  {
  }

  /** A server reading the client's bytes recovers everything the caller of a successful open
      passed in, and the disk is left with operation id 4. */
  lemma {:induction false} OpenRoundTrip(a: OpenArgs, s: Bytes, pos: nat)
    requires pos <= |s|
    ensures Open(a, s, pos).result.Ok? ==>
      && Open(a, s, pos).opId == 4 && 0 <= a.version && 0 <= a.bufferSize && 0 <= a.bufferCount
      && ReadOpen(Open(a, s, pos).sent)
         == Some(OpenRequest(a.version, a.name, a.opName, a.bufferSize, a.bufferCount, a.readOnly,
                             a.path))
  {
    hide Open, ReadHello, Parse, HelloBytes, EncodeAll, Ascii, OpenFlags, GetU32, WellFormed;
    hide EncodeText, DecodeText;
    if Open(a, s, pos).result.Ok? {
      var fs := OpenSends(a, s, pos);
      DecodeOfEncode(a.path);
      HelloRoundTrip(a.version, Ascii(a.name).value, Ascii(a.opName).value, EncodeAll(fs));
      PlainOfAscii(a.name);
      PlainOfAscii(a.opName);
      ParseOfEncode(fs);
    }
  }

  // ---------- a server that lets the client in ----------

  /** A classic message of type `want`, whatever its body, stands at `pos`. */
  predicate MsgAt(want: nat, s: Bytes, pos: nat) {
    pos + NFC_MSG_SIZE <= |s| && GetU32(s[pos..pos + NFC_MSG_SIZE], 0) == want
  }

  /** The three messages a client waits for during the handshake. Only the version message's
      body matters, and of it only the number. */
  predicate AnswersHandshake(s: Bytes, pos: nat) {
    && MsgAt(36, s, pos) && MsgAt(51, s, pos + 264)
    && GetU32(s[pos + 264..pos + 528], 4) >= 3 && MsgAt(52, s, pos + 528)
  }

  /** With arguments that fit their fields, the handshake succeeds exactly on the streams that
      begin with those three messages, and consumes them. */
  lemma {:induction false} HandshakeIsAnswered(name: string, opName: string, version: int,
                                               s: Bytes, pos: nat)
    requires Ascii(name).Some? && Ascii(opName).Some? && 0 <= version < U32_BOUND
    requires |name| < U32_BOUND && |opName| < U32_BOUND && pos <= |s|
    ensures var r := Handshake(name, opName, version, s, pos);
      && (r.result.Ok? <==> AnswersHandshake(s, pos))
      && (r.result.Ok? ==> r.pos == pos + 792)
  {
    hide Msg, Introduction, Ascii, Le, GetU32;
    var fs := [U32(version)];
    assert fs[0].Fits() && AllFit(fs);
    hide Pack;
    if MsgAt(NFC_MSG_VERSION, s, pos + 264) {
      BodyOfMsg(s[pos + 264..pos + 528]);
    }
  }

  lemma {:induction false} BodyOfMsg(m: Bytes)
    requires |m| == NFC_MSG_SIZE
    ensures GetU32(m[4..], 0) == GetU32(m, 4)
  {
    assert m[4..][0..4] == m[4..8];
  }

  /** The AIO frames that answer an open: one per request, in order, each with its type and
      op id. */
  ghost predicate AnswersOpen(rs: seq<AioFrame>, s: Bytes, at: seq<nat>) {
    && |rs| == 4 && |at| == 5 && at[0] <= at[1] <= at[2] <= at[3] <= at[4] <= |s|
    && rs[0].msgType == NFC_AIO_MSG_OPEN_SESSION && rs[1].msgType == NFC_AIO_MSG_SET_SOCK_OPTS
    && rs[2].msgType == NFC_AIO_MSG_SET_RES_POOL && rs[3].msgType == NFC_AIO_MSG_OPEN_FILE
    && forall k :: 0 <= k < 4 ==>
         (rs[k].Sendable() && rs[k].opId == k && rs[k].extra == []
          && s[at[k]..at[k + 1]] == rs[k].Encode())
  }

  lemma {:induction false} AnswerAt(rs: seq<AioFrame>, s: Bytes, at: seq<nat>, k: nat)
    requires AnswersOpen(rs, s, at) && k < 4
    ensures |rs| == 4 && |at| == 5 && at[k] <= at[k + 1] <= |s|
    ensures rs[k].Sendable() && rs[k].opId == k && rs[k].extra == []
    ensures s[at[k]..at[k + 1]] == rs[k].Encode()
    ensures rs[k].msgType == if k == 0 then NFC_AIO_MSG_OPEN_SESSION
                             else if k == 1 then NFC_AIO_MSG_SET_SOCK_OPTS
                             else if k == 2 then NFC_AIO_MSG_SET_RES_POOL
                             else NFC_AIO_MSG_OPEN_FILE
  {
  }

  lemma {:induction false} PrepareIsAnswered(bufferSize: int, bufferCount: int, s: Bytes,
                                             rs: seq<AioFrame>, at: seq<nat>)
    requires 0 <= bufferSize < U32_BOUND && 0 <= bufferCount < U32_BOUND && AnswersOpen(rs, s, at)
    ensures var r := Prepare(bufferSize, bufferCount, s, at[0]);
      r.result == Ok(rs[2].payload) && r.pos == at[3] && r.opId == 3
  {
    hide Prepare, Roundtrip, Zeros, Le, Pack, PrepareFields, GetU32, AioFrame.Encode, AnswersOpen;
    FieldsFit(bufferSize, bufferCount, 0, 0);
    PreparePayload(bufferSize, bufferCount);
    var payload := Pack(PrepareFields(bufferSize, bufferCount)).value;
    AnswerAt(rs, s, at, 0);
    AnswerAt(rs, s, at, 1);
    AnswerAt(rs, s, at, 2);
    RoundtripIsAnswered(AioFrame(NFC_AIO_MSG_OPEN_SESSION, 0, payload, []), rs[0], s, at[0], at[1]);
    RoundtripIsAnswered(AioFrame(NFC_AIO_MSG_SET_SOCK_OPTS, 1, Zeros(12), []), rs[1], s, at[1], at[2]);
    RoundtripIsAnswered(AioFrame(NFC_AIO_MSG_SET_RES_POOL, 2, Le(4, 1), []), rs[2], s, at[2], at[3]);
    ThreeTrips(bufferSize, bufferCount, payload, s, at[0], at[1], at[2]);
  }

  lemma {:induction false} ThreeTrips(bufferSize: int, bufferCount: int, payload: Bytes, s: Bytes,
                                      p0: nat, p1: nat, p2: nat)
    requires p0 <= |s| && p1 <= |s| && p2 <= |s|
    requires Pack(PrepareFields(bufferSize, bufferCount)) == Some(payload)
    requires var a := Roundtrip(NFC_AIO_MSG_OPEN_SESSION, payload, [], 0, s, p0);
      a.result.Ok? && a.pos == p1
    requires var b := Roundtrip(NFC_AIO_MSG_SET_SOCK_OPTS, Zeros(12), [], 1, s, p1);
      b.result.Ok? && b.pos == p2
    ensures var c := Roundtrip(NFC_AIO_MSG_SET_RES_POOL, Le(4, 1), [], 2, s, p2);
      var r := Prepare(bufferSize, bufferCount, s, p0);
      r.result == c.result && r.pos == c.pos && r.opId == c.opId
  {
    hide Roundtrip, Zeros, Le, Pack, PrepareFields;
  }

  lemma {:induction false} OpenFileIsAnswered(path: Text, readOnly: bool, s: Bytes,
                                              rs: seq<AioFrame>, at: seq<nat>)
    requires EncodeText(path).Some? && |EncodeText(path).value| < U32_BOUND && AnswersOpen(rs, s, at)
    ensures var r := OpenFile(path, readOnly, s, at[3]);
      r.result == ParseOpenReply(rs[3].payload) && r.pos == at[4] && r.opId == 4
  {
    hide EncodeText, Roundtrip, Zeros, Pack, OpenFields, GetU32, AioFrame.Encode, ParseOpenReply;
    hide AnswersOpen;
    var extra := EncodeText(path).value;
    FieldsFit(0, 0, |extra|, OpenFlags(readOnly));
    OpenPayload(|extra|, readOnly);
    var payload := Pack(OpenFields(|extra|, OpenFlags(readOnly))).value + Zeros(36);
    AnswerAt(rs, s, at, 3);
    RoundtripIsAnswered(AioFrame(NFC_AIO_MSG_OPEN_FILE, 3, payload, extra), rs[3], s, at[3], at[4]);
  }

  lemma {:induction false} FieldsFit(bufferSize: nat, bufferCount: nat, pathLen: nat, flags: nat)
    requires bufferSize < U32_BOUND && bufferCount < U32_BOUND
    requires pathLen < U32_BOUND && flags < U32_BOUND
    ensures Pack(PrepareFields(bufferSize, bufferCount)).Some?
    ensures Pack(OpenFields(pathLen, flags)).Some?
  {
    var p, o := PrepareFields(bufferSize, bufferCount), OpenFields(pathLen, flags);
    assert p[0].Fits() && p[1].Fits() && p[2].Fits() && p[3].Fits();
    assert o[0].Fits() && o[1].Fits() && o[2].Fits() && o[3].Fits() && o[4].Fits() && o[5].Fits();
  }

  /** With arguments that fit their fields, a server that answers in the protocol's order is
      understood to the last byte: the open returns what its last reply says. */
  lemma {:induction false} OpenIsAnswered(a: OpenArgs, s: Bytes, pos: nat, rs: seq<AioFrame>,
                                          at: seq<nat>)
    requires Ascii(a.name).Some? && Ascii(a.opName).Some? && 0 <= a.version < U32_BOUND
    requires |a.name| < U32_BOUND && |a.opName| < U32_BOUND
    requires EncodeText(a.path).Some? && |EncodeText(a.path).value| < U32_BOUND
    requires 0 <= a.bufferSize < U32_BOUND && 0 <= a.bufferCount < U32_BOUND
    requires AnswersHandshake(s, pos)
    requires AnswersOpen(rs, s, at) && at[0] == pos + 792
    ensures Open(a, s, pos).result == ParseOpenReply(rs[3].payload)
    ensures Open(a, s, pos).pos == at[4] && Open(a, s, pos).opId == 4
  {
    hide Handshake, Prepare, OpenFile, ParseOpenReply, Ascii, Msg, Le, AnswersOpen, EncodeText;
    HandshakeIsAnswered(a.name, a.opName, a.version, s, pos);
    AnswerAt(rs, s, at, 3);
    PrepareIsAnswered(a.bufferSize, a.bufferCount, s, rs, at);
    OpenFileIsAnswered(a.path, a.readOnly, s, rs, at);
  }
}
