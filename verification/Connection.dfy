/** A whole connection: open a disk, make any list of calls on it, close it, all on one stream
    and against a server that conforms throughout. */
module Connections {
  import opened Wire
  import opened Frames
  import opened Client
  import opened Pieces
  import opened Requests
  import opened Serving
  import opened Runs
  import opened Opening
  import opened Utf8

  /** What the server sends besides the replies to the calls, and where the parts of its stream
      stand: `at` the replies to the open, `end` the end of the replies to the calls, `mid`
      the reply to the second request of close. */
  datatype Peer = Peer(opening: seq<AioFrame>, at: seq<nat>, end: nat, mid: nat,
                       file: AioFrame, session: AioFrame)

  /** The arguments pass the checks of `open_disk` and fit their fields. */
  predicate ArgsFit(a: OpenArgs) {
    && CheckArgs(a).None? && Ascii(a.name).Some? && Ascii(a.opName).Some?
    && 0 <= a.version < U32_BOUND && |a.name| < U32_BOUND && |a.opName| < U32_BOUND
    && EncodeText(a.path).Some? && |EncodeText(a.path).value| < U32_BOUND
    && a.bufferSize < U32_BOUND && a.bufferCount < U32_BOUND
  }

  /** The fields of the disk that `open_disk` makes of a reply. */
  function Of(a: OpenArgs, lib: FastLz.Library, o: Opened): Session
    requires CheckArgs(a).None?
  {
    Session(lib, o.handle, o.sectorSize, a.compression, a.bufferSize)
  }

  /** The replies to the open, which make a disk with the handle and sector size of `p`. */
  ghost predicate ServesOpen(p: Session, s: Bytes, pos: nat, peer: Peer) {
    && |peer.opening| == 4 && |peer.at| == 5 && peer.at[4] <= |s|
    && AnswersHandshake(s, pos)
    && AnswersOpen(peer.opening, s, peer.at) && peer.at[0] == pos + 792
    && MakesDisk(p, ParseOpenReply(peer.opening[3].payload))
  }

  predicate MakesDisk(p: Session, r: Result<Opened>) {
    r.Ok? && r.value.handle == p.handle && r.value.sectorSize == p.sectorSize
  }

  /** The two replies to close, under the operation ids after `opId`, end the stream. */
  ghost predicate ServesClose(opId: nat, s: Bytes, peer: Peer) {
    && peer.file.Sendable() && peer.file.msgType == NFC_AIO_MSG_CLOSE_FILE
    && peer.session.Sendable() && peer.session.msgType == NFC_AIO_MSG_CLOSE_SESSION
    && peer.file.opId == opId && peer.session.opId == opId + 1
    && peer.file.extra == peer.session.extra == []
    && peer.end <= peer.mid <= |s| && s[peer.end..peer.mid] == peer.file.Encode()
    && s[peer.mid..] == peer.session.Encode()
  }

  /** `s[pos..]` is everything a conforming server sends over the connection, and `last` is
      where the server ends. */
  ghost predicate ServesConnection(p: Session, srv: Server, ops: seq<Op>, s: Bytes,
                                   pos: nat, peer: Peer, last: Server)
    requires p.bufferSize >= 1
  {
    && ServesOpen(p, s, pos, peer) && peer.at[4] <= peer.end <= |s|
    && Serves(p, srv, 4, ops, s[peer.at[4]..peer.end], last)
    && ServesClose(4 + IdsTaken(p.sectorSize, ops), s, peer)
  }

  /** Open, the calls, close: each only after the one before it succeeded. */
  ghost function Connection(a: OpenArgs, lib: FastLz.Library, ops: seq<Op>, s: Bytes, pos: nat)
    : (r: Effect<seq<Answer>>)
    requires CheckArgs(a).None? && pos <= |s|
  {
    var entered := Open(a, s, pos);
    if entered.result.Err? then Effect(entered.opId, entered.sent, entered.pos, Err(entered.result.error))
    else
      var p := Of(a, lib, entered.result.value);
      var run := Run(p, entered.opId, ops, s, entered.pos);
      var closed := Close(p.handle, run.opId, s, run.pos);
      Effect(closed.opId, entered.sent + run.sent + closed.sent, closed.pos,
             if closed.result.Ok? then Ok(run.answers) else Err(closed.result.error))
  }

  /** The frames of a connection: the requests of open under the ids 0 to 3, those of the
      calls, which take `n` ids and send frames under `ids`, and the two of close; the ids never
      go down. */
  ghost predicate IsSession(a: OpenArgs, handle: nat, n: nat, ids: set<nat>, fs: seq<AioFrame>) {
    && AllWellFormed(fs) && |fs| >= 6 && Rising(fs, 0, 4 + n + 2)
    && Exactly(fs, Span(0, 4) + ids + Span(4 + n, 4 + n + 2))
    && IsOpenRequest(a, fs[..4]) && fs[|fs| - 2..] == CloseRequests(handle, 4 + n)
    && forall k :: 4 <= k < |fs| - 2 ==> fs[k].msgType == 7
  }

  const FAREWELL: Bytes := ClassicMsg(NFC_MSG_SESSION_COMPLETE, []).value

  function HelloOf(a: OpenArgs): Bytes
    requires ArgsFit(a)
  {
    HelloBytes(a.version, Ascii(a.name).value, Ascii(a.opName).value)
  }

  /** The handshake, the frames and the farewell, which is a classic message again. */
  ghost function SessionBytes(a: OpenArgs, fs: seq<AioFrame>): Bytes
    requires ArgsFit(a) && AllSendable(fs)
  {
    HelloOf(a) + (EncodeAll(fs) + FAREWELL)
  }

  lemma {:induction false} ConnectionIsOpened(a: OpenArgs, p: Session, s: Bytes, pos: nat, peer: Peer)
    returns (fs: seq<AioFrame>)
    requires ArgsFit(a) && pos <= |s| && ServesOpen(p, s, pos, peer)
    ensures |peer.at| == 5 && peer.at[4] <= |s|
    ensures var r := Open(a, s, pos);
      MakesDisk(p, r.result) && r.pos == peer.at[4] && r.opId == 4
    ensures AllSendable(fs) && IsOpenRequest(a, fs)
    ensures Open(a, s, pos).sent == HelloOf(a) + EncodeAll(fs)
  {
    hide Open, Ascii, AnswersHandshake, ParseOpenReply, IsOpenRequest, EncodeAll, HelloBytes;
    AnswerAt(peer.opening, s, peer.at, 3);
    hide AnswersOpen;
    OpenIsAnswered(a, s, pos, peer.opening, peer.at);
    fs := OpenSends(a, s, pos);
  }

  lemma {:induction false} ConnectionIsClosed(handle: nat, opId: nat, s: Bytes, peer: Peer)
    requires handle < U64_BOUND && opId + 1 < U32_BOUND && ServesClose(opId, s, peer)
    requires peer.end <= |s|
    ensures AllSendable(CloseRequests(handle, opId)) && AllWellFormed(CloseRequests(handle, opId))
    ensures Close(handle, opId, s, peer.end)
         == Effect(opId + 2, EncodeAll(CloseRequests(handle, opId)) + FAREWELL, |s|, Ok(()))
  {
    hide Close, EncodeAll, CloseRequests, ClassicMsg, AioFrame.Encode;
    assert s[peer.mid..] == s[peer.mid..|s|];
    CloseIsAnswered(handle, opId, peer.file, peer.session, s, peer.end, peer.mid, |s|);
  }

  /** The session `p` is what opening with `a` makes of the server's reply, and the calls are
      ones the array can make. */
  ghost predicate Suits(a: OpenArgs, p: Session, srv: Server, ops: seq<Op>) {
    && ArgsFit(a) && p.compression == a.compression && p.bufferSize == a.bufferSize
    && Sound(p, srv) && AllInBounds(p.sectorSize, |srv.disk|, ops)
    && 4 + IdsTaken(p.sectorSize, ops) + 2 <= U32_BOUND
  }

  /** End to end: against a conforming server the open, every call and the close succeed or
      are refused as on a plain array, the server ends with that array, and its stream is used
      up. What the client sent is the handshake, a frame for each step under ids that rise from
      0 without a gap, and the farewell. */
  lemma {:induction false} ConnectionRefinesArray(a: OpenArgs, p: Session, srv: Server, ops: seq<Op>,
                                                  s: Bytes, pos: nat, peer: Peer, last: Server)
    returns (fs: seq<AioFrame>)
    requires Suits(a, p, srv, ops) && pos <= |s|
    requires ServesConnection(p, srv, ops, s, pos, peer, last)
    ensures AllSendable(fs)
    ensures IsSession(a, p.handle, IdsTaken(p.sectorSize, ops), IdsSent(p.sectorSize, 4, ops), fs)
    ensures Connection(a, p.lib, ops, s, pos)
         == Effect(4 + IdsTaken(p.sectorSize, ops) + 2, SessionBytes(a, fs), |s|,
                   Ok(ArrayRun(srv.disk, p.sectorSize, ops).answers))
    ensures last == srv.(disk := ArrayRun(srv.disk, p.sectorSize, ops).disk)
  {
    hide *;
    ServedParts(a, p, srv, ops, s, pos, peer, last);
    fs := SentFrames(a, p, srv, ops, s, pos, peer, last);
    RunRefinesArray(p, srv, 4, ops, s, peer.at[4], peer.end, last);
    InOneGo(a, p, ops, s, pos, peer.at[4], IdsTaken(p.sectorSize, ops), peer.end);
  }

  // ---------- the server's reading of the whole connection ----------

  /** Frames up to and with the one that closes the session, of type 3, and what follows it. */
  function ReadFrames(b: Bytes): Option<(seq<AioFrame>, Bytes)>
    decreases |b|
  {
    match ParseOne(b)
    case None => None
    case Some(f) =>
      var rest := b[f.Size()..];
      if f.msgType == 3 then Some(([f], rest))
      else match ReadFrames(rest)
           case None => None
           case Some((fs, end)) => Some(([f] + fs, end))
  }

  datatype SessionRead = SessionRead(version: nat, name: string, opName: string, frames: seq<AioFrame>)

  /** A handshake, frames until the session is closed, and then nothing but the farewell, a
      classic message of type 4. */
  function ReadSession(b: Bytes): Option<SessionRead> {
    match ReadHello(b)
    case None => None
    case Some(hello) =>
      match ReadFrames(hello.rest)
      case None => None
      case Some((fs, rest)) =>
        match TakeMsg(4, rest)
        case None => None
        case Some((_, after)) =>
          if after != [] then None else Some(SessionRead(hello.version, hello.name, hello.opName, fs))
  }

  lemma {:induction false} FramesAreRead(fs: seq<AioFrame>, rest: Bytes)
    requires AllWellFormed(fs) && AllSendable(fs) && fs != []
    requires Last(fs).msgType == 3
    requires forall k :: 0 <= k < |fs| - 1 ==> fs[k].msgType != 3
    ensures ReadFrames(EncodeAll(fs) + rest) == Some((fs, rest))
  {
    hide ParseOne, AioFrame.Encode, WellFormed;
    var f, tail := fs[0], EncodeAll(fs[1..]);
    ParseOneOfEncode(f, tail + rest);
    var b := EncodeAll(fs) + rest;
    assert b == f.Encode() + (tail + rest);
    assert b[f.Size()..] == tail + rest;
    if |fs| == 1 {
      assert tail + rest == rest && fs == [f];
    } else {
      FramesAreRead(fs[1..], rest);
      assert [f] + fs[1..] == fs;
    }
  }

  /** Of the frames of a session, the last one closes it, and no other. */
  lemma {:induction false} LastCloses(a: OpenArgs, handle: nat, n: nat, ids: set<nat>, fs: seq<AioFrame>)
    requires IsSession(a, handle, n, ids, fs)
    ensures AllWellFormed(fs) && fs != [] && Last(fs).msgType == 3
    ensures forall k :: 0 <= k < |fs| - 1 ==> fs[k].msgType != 3
  {
    hide WellFormed, GetU32, EncodeText, Span, Rising, Exactly, Le;
    var opening, closing := fs[..4], fs[|fs| - 2..];
    assert closing[1] == Last(fs) && closing[0] == fs[|fs| - 2];
    forall k | 0 <= k < |fs| - 1
      ensures fs[k].msgType != 3
    {
      assert k < 4 ==> fs[k] == opening[k];
      assert opening[0].msgType == 2 && opening[3].msgType == 4;
    }
  }

  /** The server reads back, from the bytes of a whole connection, the caller's version and
      names, every frame, and the farewell at the very end. */
  lemma {:induction false} SessionIsRead(a: OpenArgs, handle: nat, n: nat, ids: set<nat>,
                                         fs: seq<AioFrame>)
    requires ArgsFit(a) && IsSession(a, handle, n, ids, fs) && AllSendable(fs)
    ensures ReadSession(SessionBytes(a, fs))
         == Some(SessionRead(a.version, a.name, a.opName, fs))
  {
    hide ReadHello, HelloBytes, EncodeAll, ReadFrames, TakeMsg, Ascii, EncodeText, IsSession;
    hide AllWellFormed, CheckArgs;
    LastCloses(a, handle, n, ids, fs);
    FarewellIsRead();
    HelloRoundTrip(a.version, Ascii(a.name).value, Ascii(a.opName).value, EncodeAll(fs) + FAREWELL);
    PlainOfAscii(a.name);
    PlainOfAscii(a.opName);
    FramesAreRead(fs, FAREWELL);
  }

  lemma {:induction false} FarewellIsRead()
    ensures TakeMsg(4, FAREWELL).Some?
    ensures TakeMsg(4, FAREWELL).value.1 == []
  {
    TakeOfMsg(4, [], []);
    assert FAREWELL + [] == FAREWELL;
  }

  // ---------- how the parts of the stream are found ----------

  lemma {:induction false} ServedParts(a: OpenArgs, p: Session, srv: Server, ops: seq<Op>, s: Bytes,
                                       pos: nat, peer: Peer, last: Server)
    requires Suits(a, p, srv, ops) && ServesConnection(p, srv, ops, s, pos, peer, last)
    ensures ArgsFit(a) && CheckArgs(a).None?
    ensures p.compression == a.compression && p.bufferSize == a.bufferSize
    ensures Sound(p, srv) && AllInBounds(p.sectorSize, |srv.disk|, ops)
    ensures 4 + IdsTaken(p.sectorSize, ops) + 2 <= U32_BOUND
    ensures p.bufferSize >= 1 && 0 <= p.handle < U64_BOUND
    ensures ServesOpen(p, s, pos, peer) && |peer.at| == 5 && peer.at[4] <= peer.end <= |s|
    ensures Serves(p, srv, 4, ops, s[peer.at[4]..peer.end], last)
    ensures ServesClose(4 + IdsTaken(p.sectorSize, ops), s, peer)
  {
    hide Serves, ServesClose, AnswersOpen, MakesDisk, FastLz.Contract, NeverRaises, AnswersHandshake, Ascii;
    hide CheckArgs, InBounds;
  }

  lemma {:induction false} SentFrames(a: OpenArgs, p: Session, srv: Server, ops: seq<Op>, s: Bytes,
                                      pos: nat, peer: Peer, last: Server)
    returns (fs: seq<AioFrame>)
    requires Suits(a, p, srv, ops) && pos <= |s|
    requires ServesConnection(p, srv, ops, s, pos, peer, last)
    ensures ArgsFit(a) && 0 <= p.handle && |peer.at| == 5 && peer.at[4] <= peer.end <= |s|
    ensures AllSendable(fs)
    ensures IsSession(a, p.handle, IdsTaken(p.sectorSize, ops), IdsSent(p.sectorSize, 4, ops), fs)
    ensures var opening := Open(a, s, pos);
      MakesDisk(p, opening.result) && opening.pos == peer.at[4] && opening.opId == 4
    ensures var n := IdsTaken(p.sectorSize, ops);
      var closing := Close(p.handle, 4 + n, s, peer.end);
      && closing.result == Ok(()) && closing.pos == |s| && closing.opId == 4 + n + 2
      && Open(a, s, pos).sent + Run(p, 4, ops, s, peer.at[4]).sent + closing.sent
         == SessionBytes(a, fs)
  {
    hide *;
    var n := IdsTaken(p.sectorSize, ops);
    ServedParts(a, p, srv, ops, s, pos, peer, last);
    var opening := ConnectionIsOpened(a, p, s, pos, peer);
    var calls := RunUsesIds(p, srv, 4, ops, s, peer.at[4], peer.end, last);
    ConnectionIsClosed(p.handle, 4 + n, s, peer);
    fs := InAll(a, p.handle, n, IdsSent(p.sectorSize, 4, ops), opening, calls, Open(a, s, pos).sent,
                Run(p, 4, ops, s, peer.at[4]).sent, Close(p.handle, 4 + n, s, peer.end).sent);
  }

  lemma {:induction false} InAll(a: OpenArgs, handle: nat, n: nat, ids: set<nat>,
                                 opening: seq<AioFrame>, calls: seq<AioFrame>, x: Bytes, y: Bytes, z: Bytes)
    returns (fs: seq<AioFrame>)
    requires ArgsFit(a) && IsOpenRequest(a, opening) && AllWellFormed(calls)
    requires AllSendable(opening) && AllSendable(calls)
    requires AllSendable(CloseRequests(handle, 4 + n)) && AllWellFormed(CloseRequests(handle, 4 + n))
    requires Rising(calls, 4, 4 + n) && Exactly(calls, ids)
    requires forall k :: 0 <= k < |calls| ==> calls[k].msgType == 7
    requires x == HelloOf(a) + EncodeAll(opening) && y == EncodeAll(calls)
    requires z == EncodeAll(CloseRequests(handle, 4 + n)) + FAREWELL
    ensures AllSendable(fs) && IsSession(a, handle, n, ids, fs) && x + y + z == SessionBytes(a, fs)
  {
    hide *;
    var closing := CloseRequests(handle, 4 + n);
    fs := opening + calls + closing;
    FramesOfSession(a, handle, n, ids, opening, calls, closing);
    SentInOrder(a, opening, calls, closing);
  }

  lemma {:induction false} OpeningRises(a: OpenArgs, fs: seq<AioFrame>)
    requires IsOpenRequest(a, fs)
    ensures Rising(fs, 0, 4) && Exactly(fs, Span(0, 4)) && AllWellFormed(fs) && |fs| == 4
  {
    hide WellFormed, GetU32, IsOpenPayload, EncodeText, Zeros, Span;
    forall id: nat
      ensures Uses(fs, id) <==> id in Span(0, 4)
    {
      assert id < 4 ==> fs[id].opId == id;
    }
  }

  lemma {:induction false} ClosingRises(handle: nat, opId: nat, fs: seq<AioFrame>)
    requires fs == CloseRequests(handle, opId)
    ensures Rising(fs, opId, opId + 2) && Exactly(fs, Span(opId, opId + 2)) && |fs| == 2
  {
    hide Span, Le;
    assert fs[0].opId == opId && fs[1].opId == opId + 1;
    hide CloseRequests;
  }

  lemma {:induction false} FramesOfSession(a: OpenArgs, handle: nat, n: nat, ids: set<nat>,
                                           opening: seq<AioFrame>, calls: seq<AioFrame>,
                                           closing: seq<AioFrame>)
    requires IsOpenRequest(a, opening) && closing == CloseRequests(handle, 4 + n)
    requires AllWellFormed(closing) && AllWellFormed(calls)
    requires Rising(calls, 4, 4 + n) && Exactly(calls, ids)
    requires forall k :: 0 <= k < |calls| ==> calls[k].msgType == 7
    ensures IsSession(a, handle, n, ids, opening + calls + closing)
  {
    hide IsOpenRequest, CloseRequests, Rising, Exactly, WellFormed, Span;
    OpeningRises(a, opening);
    ClosingRises(handle, 4 + n, closing);
    RisingConcat(opening, calls, 0, 4, 4 + n);
    RisingConcat(opening + calls, closing, 0, 4 + n, 4 + n + 2);
    ExactlyConcat(opening, Span(0, 4), calls, ids);
    ExactlyConcat(opening + calls, Span(0, 4) + ids, closing, Span(4 + n, 4 + n + 2));
    var fs := opening + calls + closing;
    WellFormedConcat(opening, calls);
    WellFormedConcat(opening + calls, closing);
    assert fs[..4] == opening && fs[|fs| - 2..] == closing;
    forall k | 4 <= k < |fs| - 2
      ensures fs[k].msgType == 7
    {
      assert fs[k] == calls[k - 4];
    }
  }

  lemma {:induction false} SentInOrder(a: OpenArgs, opening: seq<AioFrame>, calls: seq<AioFrame>,
                                       closing: seq<AioFrame>)
    requires ArgsFit(a) && AllSendable(opening) && AllSendable(calls) && AllSendable(closing)
    ensures AllSendable(opening + calls + closing)
    ensures SessionBytes(a, opening + calls + closing)
         == HelloOf(a) + EncodeAll(opening) + EncodeAll(calls) + (EncodeAll(closing) + FAREWELL)
  {
    hide ArgsFit, HelloOf, EncodeAll;
    EncodeAllConcat(opening, calls);
    EncodeAllConcat(opening + calls, closing);
    Regroup(HelloOf(a), EncodeAll(opening), EncodeAll(calls), EncodeAll(closing), FAREWELL);
  }

  lemma {:induction false} Regroup(a: Bytes, b: Bytes, c: Bytes, d: Bytes, e: Bytes)
    ensures a + (b + c + d + e) == a + b + c + (d + e)
  {
  }

  lemma {:induction false} InOneGo(a: OpenArgs, p: Session, ops: seq<Op>, s: Bytes, pos: nat, at: nat,
                                   n: nat, end: nat)
    requires CheckArgs(a).None? && p.compression == a.compression && p.bufferSize == a.bufferSize
    requires p.bufferSize >= 1 && pos <= |s| && at <= |s| && end <= |s|
    requires var o := Open(a, s, pos);
      MakesDisk(p, o.result) && o.pos == at && o.opId == 4
    requires var run := Run(p, 4, ops, s, at); run.opId == 4 + n && run.pos == end
    requires Close(p.handle, 4 + n, s, end).result.Ok?
    ensures var c := Close(p.handle, 4 + n, s, end);
      Connection(a, p.lib, ops, s, pos)
      == Effect(c.opId, Open(a, s, pos).sent + Run(p, 4, ops, s, at).sent + c.sent, c.pos,
                Ok(Run(p, 4, ops, s, at).answers))
  {
    hide Open, Run, Close, CheckArgs;
    assert Of(a, p.lib, Open(a, s, pos).result.value) == p;
  }
}
