/** The effect of each `NfcDisk` operation as a function of the disk's fields, the arguments
    and the peer's byte stream: the operation id afterwards, the bytes put on the wire, the
    stream position, and what is returned or raised. A failing `sendall` is not covered here:
    it cuts an effect short (`NfcDisk` states how). */
module Client {
  import opened Wire
  import opened Frames
  import opened Pieces
  import opened Reading
  import opened Requests

  datatype Effect<+T> = Effect(opId: nat, sent: Bytes, pos: nat, result: Result<T>)

  // ---------- replies that are not read fragments ----------

  datatype Reply = Reply(msgType: nat, opId: nat, body: Bytes)
  datatype Received = Received(pos: nat, reply: Result<Reply>)

  /** `_aio_recv_reply`. An error reply is consumed whole before it is raised. */
  function RecvReply(s: Bytes, pos: nat): (r: Received)
    requires pos <= |s|
    ensures pos <= r.pos <= |s|
    ensures r.reply.Err? ==> r.reply.error == ProtocolError
  {
    if pos + 16 > |s| then Received(|s|, Err(ProtocolError))
    else match ReadHdr(s[pos..pos + 16])
         case Err(e) => Received(pos + 16, Err(e))
         case Ok(h) =>
           if pos + 16 + h.size > |s| then Received(|s|, Err(ProtocolError))
           else
             var end := pos + 16 + h.size;
             Received(end,
                      if h.msgType == NFC_AIO_MSG_ERROR then Err(ProtocolError)
                      else Ok(Reply(h.msgType, h.opId, s[pos + 16..end])))
  }

  /** A reply to the request of type `msgType` under `opId`, or ProtocolError. */
  function RecvReplyTo(s: Bytes, pos: nat, msgType: nat, opId: nat): (r: (nat, Result<Bytes>))
    requires pos <= |s|
    ensures pos <= r.0 <= |s|
    ensures r.1.Err? ==> r.1.error == ProtocolError
  {
    var got := RecvReply(s, pos);
    match got.reply
    case Err(e) => (got.pos, Err(e))
    case Ok(reply) =>
      if reply.msgType != msgType || reply.opId != opId then (got.pos, Err(ProtocolError))
      else (got.pos, Ok(reply.body))
  }

  /** The `n` bytes after a reply that was received, appended to it. */
  function RecvExtra(got: (nat, Result<Bytes>), n: nat, s: Bytes): (r: (nat, Result<Bytes>))
    requires got.0 <= |s|
    ensures got.0 <= r.0 <= |s|
    ensures r.1.Err? ==> r.1.error == ProtocolError || r.1 == got.1
  {
    var (end, body) := got;
    if body.Err? || n == 0 then got
    else if end + n > |s| then (|s|, Err(ProtocolError))
    else (end + n, Ok(body.value + s[end..end + n]))
  }

  /** `_aio_roundtrip` */
  function Roundtrip(msgType: nat, payload: Bytes, extra: Bytes, opId: nat, s: Bytes, pos: nat,
                     extraRecv: nat := 0)
    : (r: Effect<Bytes>)
    requires pos <= |s|
    ensures pos <= r.pos <= |s| && r.opId == opId + 1
    ensures r.result.Err? ==> r.result.error == ProtocolError || r.result.error == StructError
  {
    match PackAioHdr(msgType, |payload|, opId)
    case None => Effect(opId + 1, [], pos, Err(StructError))
    case Some(hdr) =>
      var (end, result) := RecvExtra(RecvReplyTo(s, pos, msgType, opId), extraRecv, s);
      Effect(opId + 1, hdr + payload + extra, end, result)
  }

  lemma {:induction false} RecvReplyOfFrame(s: Bytes, pos: nat, f: AioFrame)
    requires f.Sendable() && f.extra == [] && f.msgType != NFC_AIO_MSG_ERROR
    requires pos + f.Size() <= |s| && s[pos..pos + f.Size()] == f.Encode()
    ensures RecvReply(s, pos) == Received(pos + f.Size(), Ok(Reply(f.msgType, f.opId, f.payload)))
  {
    hide ReadHdr, AioFrame.Encode;
    FrameInStream(s, pos, f);
  }

  /** A request whose reply has its type and op id is answered with that reply's payload. */
  lemma {:induction false} RoundtripIsAnswered(f: AioFrame, reply: AioFrame, s: Bytes, pos: nat, end: nat)
    requires f.Sendable() && f.msgType != NFC_AIO_MSG_ERROR
    requires reply.Sendable() && reply.extra == [] && reply.msgType == f.msgType && reply.opId == f.opId
    requires pos <= end <= |s| && s[pos..end] == reply.Encode()
    ensures var r := Roundtrip(f.msgType, f.payload, f.extra, f.opId, s, pos);
      r.result == Ok(reply.payload) && r.pos == end && r.opId == f.opId + 1
  {
    hide RecvReply, AioFrame.Encode;
    assert |reply.Encode()| == reply.Size();
    RecvReplyOfFrame(s, pos, reply);
  }

  lemma {:induction false} RoundtripSent(f: AioFrame, s: Bytes, pos: nat)
    requires pos <= |s| && Roundtrip(f.msgType, f.payload, f.extra, f.opId, s, pos).result.Ok?
    ensures f.Sendable()
    ensures Roundtrip(f.msgType, f.payload, f.extra, f.opId, s, pos).sent == f.Encode()
  {
  }

  /** The stream at `pos` begins with the frame `f`, which answers a request of type `msgType`
      under `opId`: of that type, not an error, under that id, and without an extra. */
  ghost predicate IsAnswer(f: AioFrame, msgType: nat, opId: nat, s: Bytes, pos: nat) {
    && f.Sendable() && f.msgType == msgType && msgType != 1 && f.opId == opId
    && f.extra == [] && pos + f.Size() <= |s| && s[pos..pos + f.Size()] == f.Encode()
  }

  lemma {:induction false} AnswerIsReceived(f: AioFrame, msgType: nat, opId: nat, s: Bytes, pos: nat)
    requires pos <= |s| && IsAnswer(f, msgType, opId, s, pos)
    ensures RecvReplyTo(s, pos, msgType, opId) == (pos + f.Size(), Ok(f.payload))
  {
    hide RecvReply, AioFrame.Encode;
    RecvReplyOfFrame(s, pos, f);
  }

  lemma {:induction false} ReceivedIsAnswer(msgType: nat, opId: nat, s: Bytes, pos: nat)
    returns (f: AioFrame)
    requires pos <= |s| && RecvReplyTo(s, pos, msgType, opId).1.Ok?
    ensures IsAnswer(f, msgType, opId, s, pos)
  {
    hide GetU32, PackAioHdr;
    var r := RecvReplyTo(s, pos, msgType, opId);
    HdrIsPacked(s[pos..pos + 16]);
    assert s[pos..pos + 16][..16] == s[pos..pos + 16];
    f := AioFrame(msgType, opId, r.1.value, []);
    JoinAt(s, pos, pos + 16, r.0);
    assert f.Encode() == s[pos..pos + 16] + r.1.value + [];
  }

  /** A packed request is answered with success exactly when the stream begins with an answer
      to it, of its type and op id, and goes on with the announced extra. It returns that
      answer's payload and stands behind it; otherwise it raises a protocol error. */
  lemma {:induction false} RoundtripSucceedsIff(f: AioFrame, s: Bytes, pos: nat, extraRecv: nat)
    requires f.Sendable() && pos <= |s|
    ensures var r := Roundtrip(f.msgType, f.payload, f.extra, f.opId, s, pos, extraRecv);
      && r.sent == f.Encode() && r.opId == f.opId + 1
      && (r.result.Ok? <==> exists g ::
            IsAnswer(g, f.msgType, f.opId, s, pos) && pos + g.Size() + extraRecv <= |s|)
      && (forall g :: IsAnswer(g, f.msgType, f.opId, s, pos) && r.result.Ok? ==>
            var end := pos + g.Size();
            && end + extraRecv <= |s| && r.pos == end + extraRecv
            && r.result == Ok(g.payload + s[end..end + extraRecv]))
      && (r.result.Err? ==> r.result.error == ProtocolError)
  {
    hide RecvReplyTo, IsAnswer;
    if RecvReplyTo(s, pos, f.msgType, f.opId).1.Ok? {
      var g := ReceivedIsAnswer(f.msgType, f.opId, s, pos);
      AnswerIsReceived(g, f.msgType, f.opId, s, pos);
    }
    forall g | IsAnswer(g, f.msgType, f.opId, s, pos)
      ensures RecvReplyTo(s, pos, f.msgType, f.opId) == (pos + g.Size(), Ok(g.payload))
      ensures pos + g.Size() <= |s|
      ensures g.payload + s[pos + g.Size()..pos + g.Size()] == g.payload
    {
      AnswerIsReceived(g, f.msgType, f.opId, s, pos);
    }
  }

  /** An error frame is consumed whole by `_aio_recv_reply` but only up to its header by
      `readinto`: after the latter raised, the stream is at a frame boundary exactly if the
      error carried no body. */
  lemma {:induction false} ErrorFrameAlignment(s: Bytes, pos: nat, f: AioFrame, req: Request)
    requires f.Sendable() && f.extra == [] && f.msgType == 1 && req.length >= 1
    requires pos + f.Size() <= |s| && s[pos..pos + f.Size()] == f.Encode()
    ensures RecvReply(s, pos) == Received(pos + f.Size(), Err(ProtocolError))
    ensures Replies(req, s, pos, []) == Failed(ProtocolError, pos + 16, [], 0, [])
    ensures Replies(req, s, pos, []).pos == RecvReply(s, pos).pos <==> f.payload == []
  {
    hide ReadHdr, AioFrame.Encode;
    FrameInStream(s, pos, f);
    assert ReplyBody(s, pos, req.opId) == NoBody(pos + 16);
    hide ReplyBody;
  }

  // ---------- readinto ----------

  datatype ReadEffect = ReadEffect(effect: Effect<ReadResult>, buf: Bytes)

  function ReadInto(p: Session, opId: nat, start: int, num: int, buf: Bytes, readOnly: bool,
                    skip: bool, s: Bytes, pos: nat): (r: ReadEffect)
    requires pos <= |s|
    ensures pos <= r.effect.pos <= |s|
  {
    match PrepareRead(p, opId, start, num, |buf|, readOnly)
    case Refuse(e, took) =>
      ReadEffect(Effect(if took then opId + 1 else opId, [], pos, Err(e)), buf)
    case Send(frame) =>
      var req := Request(p.lib, opId, num * p.sectorSize, skip);
      var run := Replies(req, s, pos, []);
      ReadEffect(Effect(opId + 1, frame, run.pos,
                        if run.Done? then Ok(Result(req, run.acc)) else Err(run.error)),
                 BufferAfter(req, buf, run))
  }

  /** `read`: a new zeroed buffer, and its contents when `readinto` returns. */
  function Read(p: Session, opId: nat, start: int, num: int, s: Bytes, pos: nat): (r: Effect<Bytes>)
    requires pos <= |s|
    ensures pos <= r.pos <= |s|
  {
    if num < 1 then Effect(opId, [], pos, Err(ValueError))
    else
      var r := ReadInto(p, opId, start, num, Zeros(num * p.sectorSize), false, false, s, pos);
      Effect(r.effect.opId, r.effect.sent, r.effect.pos,
             if r.effect.result.Ok? then Ok(r.buf) else Err(r.effect.result.error))
  }

  function Result(req: Request, acc: seq<Piece>): ReadResult {
    ReadResult(req.length, SumExtras(acc), if req.skip then Table(acc) else [])
  }

  /** What `readinto` raises, and when. The argument checks come first and in this order; then
      `struct.error` when the request does not fit its fields; once it is out, `struct.error`
      for a short FastLZ payload and a protocol error for everything else. An op id is taken
      once all but the id itself has been found to fit. */
  lemma {:induction false} ReadIntoRaises(p: Session, opId: nat, start: int, num: int, buf: Bytes,
                                          readOnly: bool, skip: bool, s: Bytes, pos: nat)
    requires pos <= |s|
    ensures var r := ReadInto(p, opId, start, num, buf, readOnly, skip, s, pos).effect.result;
      if num < 1 then r == Err(ValueError)
      else if readOnly then r == Err(TypeError)
      else if |buf| < num * p.sectorSize then r == Err(RuntimeError)
      else
        && (r == Err(StructError) <==>
              !ReadFits(p, opId, start * p.sectorSize, num * p.sectorSize)
              || ShortFastLzAhead(Request(p.lib, opId, num * p.sectorSize, skip), s, pos))
        && (r.Err? && r.error != StructError ==> r.error == ProtocolError)
    ensures ReadInto(p, opId, start, num, buf, readOnly, skip, s, pos).effect.opId
         == if num >= 1 && !readOnly && num * p.sectorSize <= |buf|
               && ReadFits(p, 0, start * p.sectorSize, num * p.sectorSize)
            then opId + 1 else opId
  {
    hide Replies, BufferAfter, ShortFastLzAhead, Pack, ReadFields;
    if num >= 1 && !readOnly && |buf| >= num * p.sectorSize {
      ReadIsSent(p, opId, start, num, |buf|);
      StructErrorIff(Request(p.lib, opId, num * p.sectorSize, skip), s, pos);
    }
  }

  // ---------- write ----------

  ghost function Write(p: Session, opId: nat, start: int, num: int, data: Bytes, s: Bytes, pos: nat)
    : (r: Effect<()>)
    requires pos <= |s| && p.bufferSize >= 1
    ensures pos <= r.pos <= |s|
  {
    if num < 1 || |data| != num * p.sectorSize then Effect(opId, [], pos, Err(ValueError))
    else
      var run := WriteFrames(p, opId, start * p.sectorSize, data, 0);
      match run.error
      case Some(e) => Effect(opId + 1, EncodeAll(run.frames), pos, Err(e))
      case None =>
        var (end, result) := RecvReplyTo(s, pos, NFC_AIO_MSG_IO, opId);
        Effect(opId + 1, EncodeAll(run.frames), end,
               if result.Ok? then Ok(()) else Err(result.error))
  }

  /** A write whose fragments are out succeeds exactly when the stream begins with an answer to
      it, an IO frame under its op id, and then stands behind that; otherwise it raises a
      protocol error. */
  lemma {:induction false} WriteIsAcknowledged(p: Session, opId: nat, start: int, num: int, data: Bytes,
                                               s: Bytes, pos: nat)
    requires pos <= |s| && p.bufferSize >= 1 && num >= 1 && |data| == num * p.sectorSize
    requires WriteFrames(p, opId, start * p.sectorSize, data, 0).error == None
    ensures var r := Write(p, opId, start, num, data, s, pos);
      && r.opId == opId + 1
      && (r.result.Ok? <==> exists f :: IsAnswer(f, 7, opId, s, pos))
      && (forall f :: IsAnswer(f, 7, opId, s, pos) ==> r.pos == pos + f.Size())
      && (r.result.Err? ==> r.result.error == ProtocolError)
  {
    hide RecvReplyTo, IsAnswer, WriteFrames, EncodeAll;
    if RecvReplyTo(s, pos, NFC_AIO_MSG_IO, opId).1.Ok? {
      var f := ReceivedIsAnswer(NFC_AIO_MSG_IO, opId, s, pos);
    }
    forall f | IsAnswer(f, NFC_AIO_MSG_IO, opId, s, pos)
      ensures RecvReplyTo(s, pos, NFC_AIO_MSG_IO, opId) == (pos + f.Size(), Ok(f.payload))
    {
      AnswerIsReceived(f, NFC_AIO_MSG_IO, opId, s, pos);
    }
  }

  // ---------- close ----------

  const NFC_MSG_SIZE: nat := 264
  const NFC_MSG_SESSION_COMPLETE: nat := 4

  /** `_send_nfc_msg`'s 264-byte frame */
  function ClassicMsg(msgType: nat, body: Bytes): (r: Result<Bytes>)
    ensures r.Ok? ==> |r.value| == NFC_MSG_SIZE
    ensures r.Ok? <==> |body| <= NFC_MSG_SIZE - 4
  {
    if |body| > NFC_MSG_SIZE - 4 then Err(ValueError)
    else Ok(Le(4, msgType) + body + Zeros(NFC_MSG_SIZE - 4 - |body|))
  }

  /** The two round trips and the classic message of `close`, each only after the one before
      it succeeded. */
  function Close(handle: int, opId: nat, s: Bytes, pos: nat): (r: Effect<()>)
    requires pos <= |s|
    ensures pos <= r.pos <= |s|
  {
    match Pack([U64(handle)])
    case None => Effect(opId, [], pos, Err(StructError))
    case Some(handleBytes) =>
      var file := Roundtrip(NFC_AIO_MSG_CLOSE_FILE, handleBytes, [], opId, s, pos);
      if file.result.Err? then Effect(file.opId, file.sent, file.pos, Err(file.result.error))
      else
        var session := Roundtrip(NFC_AIO_MSG_CLOSE_SESSION, Le(4, 0), [], file.opId, s, file.pos);
        if session.result.Err? then
          Effect(session.opId, file.sent + session.sent, session.pos, Err(session.result.error))
        else
          Effect(session.opId,
                 file.sent + session.sent + ClassicMsg(NFC_MSG_SESSION_COMPLETE, []).value,
                 session.pos, Ok(()))
  }

  /** The handle and the operation ids of the first `n` parts of the farewell fit their fields. */
  predicate GoodbyesFit(handle: int, opId: nat, n: nat) {
    && n <= 3 && (n >= 1 ==> 0 <= handle < U64_BOUND && opId < U32_BOUND)
    && (n >= 2 ==> opId + 1 < U32_BOUND)
  }

  /** `Goodbyes(handle, opId, n)` is the first `n` of CLOSE_FILE, CLOSE_SESSION and
      SESSION_COMPLETE, in that order. */
  function Goodbyes(handle: int, opId: nat, n: nat): Bytes
    requires GoodbyesFit(handle, opId, n)
  {
    if n == 0 then []
    else
      var file := AioFrame(NFC_AIO_MSG_CLOSE_FILE, opId, Le(8, handle), []).Encode();
      if n == 1 then file
      else
        var session := AioFrame(NFC_AIO_MSG_CLOSE_SESSION, opId + 1, Le(4, 0), []).Encode();
        if n == 2 then file + session
        else file + session + ClassicMsg(NFC_MSG_SESSION_COMPLETE, []).value
  }

  /** Whatever the peer does, close sends a prefix of that farewell, all of it exactly when it
      succeeds, and nothing exactly when the handle or the first id does not pack. */
  lemma {:induction false} CloseSendsInOrder(handle: int, opId: nat, s: Bytes, pos: nat)
    requires pos <= |s|
    ensures exists n: nat ::
      (GoodbyesFit(handle, opId, n) && Close(handle, opId, s, pos).sent == Goodbyes(handle, opId, n)
       && (n == 3 <==> Close(handle, opId, s, pos).result.Ok?)
       && (n == 0 <==> !GoodbyesFit(handle, opId, 1)))
  {
    hide *;
    var n := CloseParts(handle, opId, s, pos);
  }

  lemma {:induction false} CloseParts(handle: int, opId: nat, s: Bytes, pos: nat) returns (n: nat)
    requires pos <= |s|
    ensures GoodbyesFit(handle, opId, n)
    ensures Close(handle, opId, s, pos).sent == Goodbyes(handle, opId, n)
    ensures n == 3 <==> Close(handle, opId, s, pos).result.Ok?
    ensures n == 0 <==> !GoodbyesFit(handle, opId, 1)
  {
    hide Roundtrip, Pack, Le, ClassicMsg, AioFrame.Encode;
    HandlePacks(handle);
    if !(0 <= handle < U64_BOUND) {
      n := 0;
    } else {
      var f := AioFrame(NFC_AIO_MSG_CLOSE_FILE, opId, Le(8, handle), []);
      var g := AioFrame(NFC_AIO_MSG_CLOSE_SESSION, opId + 1, Le(4, 0), []);
      var file := Roundtrip(f.msgType, f.payload, f.extra, f.opId, s, pos);
      TripSends(f, s, pos);
      TripSends(g, s, file.pos);
      var session := Roundtrip(g.msgType, g.payload, g.extra, g.opId, s, file.pos);
      n := if opId >= U32_BOUND then 0
           else if file.result.Err? || opId + 1 >= U32_BOUND then 1
           else if session.result.Err? then 2
           else 3;
      assert file.sent + [] == file.sent;
    }
  }

  lemma {:induction false} TripSends(f: AioFrame, s: Bytes, pos: nat)
    requires pos <= |s| && f.msgType < U32_BOUND && |f.payload| < U32_BOUND
    ensures var r := Roundtrip(f.msgType, f.payload, f.extra, f.opId, s, pos);
      && r.sent == (if f.opId < U32_BOUND then f.Encode() else [])
      && (f.opId >= U32_BOUND ==> r.result.Err?)
  {
  }

  lemma {:induction false} HandlePacks(handle: int)
    ensures Pack([U64(handle)]) == if 0 <= handle < U64_BOUND then Some(Le(8, handle)) else None
  {
    var fields := [U64(handle)];
    if 0 <= handle < U64_BOUND {
      HandleBytes(handle);
    } else {
      assert !fields[0].Fits();
    }
  }

  function CloseRequests(handle: nat, opId: nat): seq<AioFrame> {
    [AioFrame(NFC_AIO_MSG_CLOSE_FILE, opId, Le(8, handle), []),
     AioFrame(NFC_AIO_MSG_CLOSE_SESSION, opId + 1, Le(4, 0), [])]
  }

  /** A server that answers both round trips is understood: close succeeds, at the second
      reply's last byte, having sent both requests under two new ids and the farewell. */
  lemma {:induction false} CloseIsAnswered(handle: nat, opId: nat, file: AioFrame, session: AioFrame,
                                           s: Bytes, pos: nat, mid: nat, end: nat)
    requires handle < U64_BOUND && opId + 1 < U32_BOUND
    requires file.Sendable() && file.msgType == NFC_AIO_MSG_CLOSE_FILE && file.opId == opId
    requires session.Sendable() && session.msgType == NFC_AIO_MSG_CLOSE_SESSION
    requires session.opId == opId + 1 && file.extra == session.extra == []
    requires pos <= mid <= end <= |s|
    requires s[pos..mid] == file.Encode() && s[mid..end] == session.Encode()
    ensures AllSendable(CloseRequests(handle, opId)) && AllWellFormed(CloseRequests(handle, opId))
    ensures Close(handle, opId, s, pos)
         == Effect(opId + 2, EncodeAll(CloseRequests(handle, opId))
                             + ClassicMsg(NFC_MSG_SESSION_COMPLETE, []).value, end, Ok(()))
  {
    HandleBytes(handle);
    hide *;
    var f, g := CloseRequestsAre(handle, opId);
    RoundtripIsAnswered(f, file, s, pos, mid);
    RoundtripIsAnswered(g, session, s, mid, end);
    RoundtripSent(f, s, pos);
    RoundtripSent(g, s, mid);
    TwoTrips(handle, opId, f.payload, s, pos, mid);
  }

  lemma {:induction false} CloseRequestsAre(handle: nat, opId: nat) returns (f: AioFrame, g: AioFrame)
    requires opId + 1 < U32_BOUND
    ensures f == AioFrame(NFC_AIO_MSG_CLOSE_FILE, opId, Le(8, handle), [])
    ensures g == AioFrame(NFC_AIO_MSG_CLOSE_SESSION, opId + 1, Le(4, 0), [])
    ensures f.Sendable() && g.Sendable()
    ensures f.msgType != NFC_AIO_MSG_ERROR && g.msgType != NFC_AIO_MSG_ERROR
    ensures AllSendable(CloseRequests(handle, opId)) && AllWellFormed(CloseRequests(handle, opId))
    ensures EncodeAll(CloseRequests(handle, opId)) == f.Encode() + g.Encode()
  {
    hide AioFrame.Encode, Le;
    var rs := CloseRequests(handle, opId);
    f, g := rs[0], rs[1];
    assert rs[1..] == [g] && [g][1..] == [];
    assert EncodeAll([g]) == g.Encode() + [] == g.Encode();
  }

  lemma {:induction false} TwoTrips(handle: nat, opId: nat, handleBytes: Bytes, s: Bytes, pos: nat,
                                    mid: nat)
    requires pos <= |s| && mid <= |s| && Pack([U64(handle)]) == Some(handleBytes)
    requires var file := Roundtrip(NFC_AIO_MSG_CLOSE_FILE, handleBytes, [], opId, s, pos);
      file.result.Ok? && file.pos == mid
    requires Roundtrip(NFC_AIO_MSG_CLOSE_SESSION, Le(4, 0), [], opId + 1, s, mid).result.Ok?
    ensures var file := Roundtrip(NFC_AIO_MSG_CLOSE_FILE, handleBytes, [], opId, s, pos);
      var session := Roundtrip(NFC_AIO_MSG_CLOSE_SESSION, Le(4, 0), [], opId + 1, s, mid);
      Close(handle, opId, s, pos)
      == Effect(opId + 2, file.sent + session.sent + ClassicMsg(NFC_MSG_SESSION_COMPLETE, []).value,
                session.pos, Ok(()))
  {
    hide Roundtrip, Pack, Le, ClassicMsg;
  }

  lemma {:induction false} HandleBytes(handle: nat)
    requires handle < U64_BOUND
    ensures Pack([U64(handle)]) == Some(Le(8, handle))
  {
    var fs := [U64(handle)];
    assert fs[0].Fits() && AllFit(fs);
    assert Packed(fs, 1) == Packed(fs, 0) + Le(8, handle) == Le(8, handle);
  }

  /** `s[pos..end]` is an answer to a request of type `msgType` under `opId`. */
  ghost predicate AnsweredUntil(msgType: nat, opId: nat, s: Bytes, pos: nat, end: nat) {
    exists f :: IsAnswer(f, msgType, opId, s, pos) && end == pos + f.Size()
  }

  lemma {:induction false} RoundtripUntil(f: AioFrame, s: Bytes, pos: nat, end: nat)
    requires f.Sendable() && pos <= |s|
    ensures var r := Roundtrip(f.msgType, f.payload, f.extra, f.opId, s, pos);
      r.result.Ok? && r.pos == end <==> AnsweredUntil(f.msgType, f.opId, s, pos, end)
    ensures AnsweredUntil(f.msgType, f.opId, s, pos, end) ==> end <= |s|
  {
    hide IsAnswer, Roundtrip, AioFrame.Encode;
    RoundtripSucceedsIff(f, s, pos, 0);
    forall g | IsAnswer(g, f.msgType, f.opId, s, pos)
      ensures pos + g.Size() <= |s|
    {
      AnswerFits(g, f.msgType, f.opId, s, pos);
    }
  }

  lemma {:induction false} AnswerFits(f: AioFrame, msgType: nat, opId: nat, s: Bytes, pos: nat)
    requires IsAnswer(f, msgType, opId, s, pos)
    ensures pos + f.Size() <= |s|
  {
  }

  /** Close succeeds, at `end`, exactly when the stream up to there is an answer to CLOSE_FILE
      under the next op id and then one to CLOSE_SESSION under the one after. */
  lemma {:induction false} CloseSucceedsIff(handle: nat, opId: nat, s: Bytes, pos: nat, end: nat)
    requires handle < U64_BOUND && opId + 1 < U32_BOUND && pos <= |s|
    ensures var r := Close(handle, opId, s, pos);
      r.result.Ok? && r.pos == end <==>
        exists mid: nat :: AnsweredUntil(5, opId, s, pos, mid) && AnsweredUntil(3, opId + 1, s, mid, end)
  {
    hide AnsweredUntil, Roundtrip, Pack, Le, ClassicMsg;
    HandleBytes(handle);
    var a, b := CloseRequestsAre(handle, opId);
    var file := Roundtrip(a.msgType, a.payload, a.extra, a.opId, s, pos);
    RoundtripUntil(a, s, pos, file.pos);
    RoundtripUntil(b, s, file.pos, end);
    forall mid: nat | AnsweredUntil(5, opId, s, pos, mid) && AnsweredUntil(3, opId + 1, s, mid, end)
      ensures file.result.Ok? && mid == file.pos
    {
      RoundtripUntil(a, s, pos, mid);
    }
  }
}
