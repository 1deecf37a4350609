/** A conforming server (docs/nfc_read.md, docs/nfc_write.md): it parses the client's bytes
    into frames, applies every write fragment at the write's offset plus its own, acknowledges
    a write once, after its last fragment, and answers a read with any reply that carries the
    requested bytes of its disk. */
module Serving {
  import opened Wire
  import opened Frames
  import opened Pieces
  import opened Reading
  import opened Requests
  import opened Conforming

  datatype Server = Server(disk: Bytes, handle: nat)

  // ---------- writes ----------

  predicate IsWrite(srv: Server, opId: nat, offset: nat, total: nat, f: AioFrame) {
    && f.msgType == 7 && f.opId == opId && |f.payload| >= 40
    && GetU32(f.payload, 8) == 0 && GetU64(f.payload, 0) == srv.handle
    && GetU64(f.payload, 16) == offset && GetU32(f.payload, 24) == total
  }

  function Apply(lib: FastLz.Library, disk: Bytes, offset: nat, f: AioFrame): Bytes {
    match Decoded(lib, ToPiece(f))
    case None => disk
    case Some(chunk) => Splice(disk, offset + ToPiece(f).dest, chunk)
  }

  function ApplyAll(lib: FastLz.Library, disk: Bytes, offset: nat, fs: seq<AioFrame>): Bytes
    decreases |fs|
  {
    if fs == [] then disk else ApplyAll(lib, Apply(lib, disk, offset, fs[0]), offset, fs[1..])
  }

  ghost predicate AnswersWrite(lib: FastLz.Library, srv: Server, fs: seq<AioFrame>, next: Server,
                               reply: Bytes)
    requires fs != [] && |fs[0].payload| >= 40
  {
    var offset, total := GetU64(fs[0].payload, 16), GetU32(fs[0].payload, 24);
    && (forall k :: 0 <= k < |fs| ==> IsWrite(srv, fs[0].opId, offset, total, fs[k]))
    && SumChunks(PiecesIn(fs)) == total && offset + total <= |srv.disk|
    && next == srv.(disk := ApplyAll(lib, srv.disk, offset, fs))
    && exists ack: AioFrame ::
         (ack.Sendable() && ack.msgType == 7 && ack.opId == fs[0].opId
          && ack.extra == [] && reply == ack.Encode())
  }

  // ---------- reads ----------

  /** `packs`: the extras fit a buffer of the requested size, as the caller of a read without
      decompression needs them to. */
  ghost predicate AnswersRead(lib: FastLz.Library, srv: Server, f: AioFrame, packs: bool, reply: Bytes)
    requires |f.payload| >= 40
  {
    var offset, length := GetU64(f.payload, 16), GetU64(f.payload, 24);
    && GetU64(f.payload, 0) == srv.handle && offset + length <= |srv.disk|
    && exists ws ::
         (ReplyTo(lib, f.opId, ws, srv.disk[offset..offset + length]) && AllSendable(ws)
          && (packs ==> SumExtras(PiecesIn(ws)) <= length) && reply == EncodeAll(ws))
  }

  /** The server reads `request` off the wire, moves to `next` and sends `reply`. */
  ghost predicate Answers(lib: FastLz.Library, srv: Server, request: Bytes, packs: bool,
                          next: Server, reply: Bytes)
  {
    match Parse(request)
    case None => false
    case Some(fs) =>
      && fs != [] && fs[0].msgType == 7 && |fs[0].payload| >= 40
      && if GetU32(fs[0].payload, 8) == 1 then
           |fs| == 1 && next == srv && AnswersRead(lib, srv, fs[0], packs, reply)
         else AnswersWrite(lib, srv, fs, next, reply)
  }

  // ---------- what the server makes of the client's writes ----------

  /** Applying the fragments one by one stores the data at the write's offset and touches
      nothing else. */
  lemma {:induction false} ApplyWrite(p: Session, opId: nat, offset: nat, data: Bytes, at: nat,
                                      disk: Bytes)
    requires p.bufferSize >= 1 && at <= |data| && FastLz.Contract(p.lib)
    requires WriteFrames(p, opId, offset, data, at).error == None
    requires offset + |data| <= |disk|
    ensures ApplyAll(p.lib, disk, offset, WriteFrames(p, opId, offset, data, at).frames)
         == Splice(disk, offset + at, data[at..])
    decreases |data| - at
  {
    hide WriteFrame, Decoded, PieceOf, Splice, Apply, FastLz.Contract;
    if at == |data| {
      SpliceNothing(disk, offset + at);
    } else {
      var f, next, rest := WriteStep(p, opId, offset, data, at);
      var chunk := data[at..next];
      ApplyOne(p, opId, offset, data, at, disk);
      ApplyWrite(p, opId, offset, data, next, Splice(disk, offset + at, chunk));
      SpliceTwice(disk, offset + at, chunk, data[next..]);
      JoinRest(data, at, next);
      TailOf(f, rest);
    }
  }

  lemma {:induction false} JoinRest(data: Bytes, at: nat, next: nat)
    requires at <= next <= |data|
    ensures data[at..next] + data[next..] == data[at..]
  {
  }

  lemma {:induction false} TailOf<T>(x: T, rest: seq<T>)
    ensures ([x] + rest)[1..] == rest
  {
  }

  lemma {:induction false} ApplyOne(p: Session, opId: nat, offset: nat, data: Bytes, at: nat,
                                    disk: Bytes)
    requires p.bufferSize >= 1 && at < |data| && FastLz.Contract(p.lib)
    requires WriteFrame(p, opId, offset, data, at).Ok? && offset + |data| <= |disk|
    ensures var next := Min(at + p.bufferSize, |data|);
      && Apply(p.lib, disk, offset, WriteFrame(p, opId, offset, data, at).value)
         == Splice(disk, offset + at, data[at..next])
      && |Splice(disk, offset + at, data[at..next])| == |disk|
  {
    hide WriteFrame, Encode, IsReply, WellFormed, Decoded, ToPiece;
    WriteFrameShape(p, opId, offset, data, at);
    WritePieceOf(p, opId, offset, data, at);
    hide WriteFrame, Decoded;
  }

  lemma {:induction false} WriteHeadAt(p: Session, opId: nat, offset: nat, data: Bytes, k: nat)
    requires p.bufferSize >= 1 && 0 <= p.handle
    requires WriteFrames(p, opId, offset, data, 0).error == None
    requires k < |WriteFrames(p, opId, offset, data, 0).frames|
    ensures var f := WriteFrames(p, opId, offset, data, 0).frames[k];
      WellFormed(f) && IsWrite(Server([], p.handle), opId, offset, |data|, f)
  {
    hide WriteFrame, WriteFrames, Encode, IsReply, ToPiece, WellFormed, GetU32, GetU64;
    WriteFrameAt(p, opId, offset, data, 0, k, k * p.bufferSize);
    WriteFrameShape(p, opId, offset, data, k * p.bufferSize);
    WritePayload(p, opId, offset, data, k * p.bufferSize);
    hide WriteFrame;
  }

  lemma {:induction false} WriteParsed(p: Session, opId: nat, offset: nat, data: Bytes, srv: Server)
    returns (fs: seq<AioFrame>)
    requires p.bufferSize >= 1 && data != [] && srv.handle == p.handle
    requires WriteFrames(p, opId, offset, data, 0).error == None
    ensures fs == WriteFrames(p, opId, offset, data, 0).frames && fs != []
    ensures AllSendable(fs) && EncodeAll(fs) != [] && Parse(EncodeAll(fs)) == Some(fs)
    ensures forall k :: 0 <= k < |fs| ==> IsWrite(srv, opId, offset, |data|, fs[k])
    ensures SumChunks(PiecesIn(fs)) == |data|
  {
    fs := WriteFrames(p, opId, offset, data, 0).frames;
    var f, next, rest := WriteStep(p, opId, offset, data, 0);
    forall k | 0 <= k < |fs|
      ensures WellFormed(fs[k]) && IsWrite(srv, opId, offset, |data|, fs[k])
    {
      WriteHeadAt(p, opId, offset, data, k);
    }
    WriteSums(p, opId, offset, data, 0);
    ParseOfEncode(fs);
    hide *;
  }

  /** The server reads the client's write off the wire as its fragments, and ends up with the
      data at the write's offset. */
  lemma {:induction false} WriteReachesDisk(p: Session, opId: nat, offset: nat, data: Bytes,
                                            srv: Server, packs: bool, next: Server, reply: Bytes)
    requires p.bufferSize >= 1 && FastLz.Contract(p.lib) && data != [] && srv.handle == p.handle
    requires WriteFrames(p, opId, offset, data, 0).error == None
    requires offset + |data| <= |srv.disk|
    ensures var request := EncodeAll(WriteFrames(p, opId, offset, data, 0).frames);
      && request != []
      && (Answers(p.lib, srv, request, packs, next, reply) <==>
          && next == srv.(disk := Splice(srv.disk, offset, data))
          && exists ack: AioFrame ::
               (ack.Sendable() && ack.msgType == NFC_AIO_MSG_IO && ack.opId == opId
                && ack.extra == [] && reply == ack.Encode()))
  {
    hide WriteFrames, WriteFrame, ApplyAll, Parse, EncodeAll, PiecesIn, SumChunks, Splice;
    hide AioFrame.Encode, GetU32, GetU64;
    var fs := WriteParsed(p, opId, offset, data, srv);
    ApplyWrite(p, opId, offset, data, 0, srv.disk);
    assert data[0..] == data;
    assert IsWrite(srv, opId, offset, |data|, fs[0]);
  }

  // ---------- what the server makes of the client's read requests ----------

  /** A read request is one frame that says, in the fields of docs/nfc_read.md, what is asked for:
      direction 1 and the session's compression in the opcode, the handle, and the byte range. */
  lemma {:induction false} ReadFrame(p: Session, opId: nat, start: int, num: int, bufLen: nat)
    returns (f: AioFrame)
    requires PrepareRead(p, opId, start, num, bufLen, false).Send? && p.compression < U32_BOUND
    ensures Parse(PrepareRead(p, opId, start, num, bufLen, false).frame) == Some([f])
    ensures PrepareRead(p, opId, start, num, bufLen, false).frame != []
    ensures f.msgType == NFC_AIO_MSG_IO && f.opId == opId && |f.payload| == 44
    ensures GetU32(f.payload, 8) == 1 && GetU64(f.payload, 8) / U32_BOUND == p.compression
    ensures GetU64(f.payload, 0) == p.handle && GetU64(f.payload, 16) == start * p.sectorSize
    ensures GetU64(f.payload, 24) == num * p.sectorSize && GetU32(f.payload, 40) == 0
    ensures GetU32(f.payload, 32) == num * p.sectorSize == GetU32(f.payload, 36)
  {
    var opcode, offset, length := Opcode(NFC_AIO_IO_READ, p.compression), start * p.sectorSize,
      num * p.sectorSize;
    var payload := Pack(ReadFields(p.handle, opcode, offset, length)).value;
    var request := PrepareRead(p, opId, start, num, bufLen, false).frame;
    f := AioFrame(NFC_AIO_MSG_IO, opId, payload, []);
    assert request == PackAioHdr(f.msgType, |f.payload|, f.opId).value + f.payload;
    hide *;
    RequestPayload(p.handle, p.compression, offset, length, payload);
    IsRequest(f);
    OneFrame(f, request);
  }

  lemma {:induction false} RequestPayload(handle: int, ctype: nat, offset: int, length: int,
                                          payload: Bytes)
    requires Pack(ReadFields(handle, Opcode(NFC_AIO_IO_READ, ctype), offset, length)) == Some(payload)
    ensures |payload| == 44 && GetU32(payload, 8) == 1 && GetU64(payload, 8) / U32_BOUND == ctype
    ensures GetU32(payload, 32) == length == GetU32(payload, 36) && GetU32(payload, 40) == 0
    ensures GetU64(payload, 0) == handle && GetU64(payload, 16) == offset
    ensures GetU64(payload, 24) == length
  {
    hide Pack, ReadFields, GetU32, GetU64;
    ReadRequestLayout(handle, Opcode(NFC_AIO_IO_READ, ctype), offset, length, []);
    assert payload + [] == payload;
    OpcodeSplits(payload, NFC_AIO_IO_READ, ctype);
  }

  lemma {:induction false} IsRequest(f: AioFrame)
    requires f.msgType == NFC_AIO_MSG_IO && f.opId < U32_BOUND && |f.payload| == 44 && f.extra == []
    requires GetU32(f.payload, 8) == NFC_AIO_IO_READ
    ensures WellFormed(f)
  {
  }

  /** The server reads the client's request off the wire, and its conforming replies are those
      that carry the requested bytes of its disk. */
  lemma {:induction false} ReadReachesServer(p: Session, opId: nat, start: int, num: int, bufLen: nat,
                                             srv: Server, packs: bool, next: Server, reply: Bytes)
    requires PrepareRead(p, opId, start, num, bufLen, false).Send?
    requires srv.handle == p.handle && p.compression < U32_BOUND
    requires start * p.sectorSize + num * p.sectorSize <= |srv.disk|
    ensures var request := PrepareRead(p, opId, start, num, bufLen, false).frame;
      var offset, length := start * p.sectorSize, num * p.sectorSize;
      && request != [] && 0 <= offset && 0 <= length
      && (Answers(p.lib, srv, request, packs, next, reply) <==>
          && next == srv
          && exists ws ::
               (ReplyTo(p.lib, opId, ws, srv.disk[offset..offset + length]) && AllSendable(ws)
                && (packs ==> SumExtras(PiecesIn(ws)) <= length) && reply == EncodeAll(ws)))
  {
    hide PrepareRead, Parse, ReplyTo, EncodeAll, GetU32, GetU64, SumExtras, PiecesIn;
    var f := ReadFrame(p, opId, start, num, bufLen);
  }

  lemma {:induction false} OneFrame(f: AioFrame, request: Bytes)
    requires WellFormed(f) && f.extra == []
    requires request == PackAioHdr(f.msgType, |f.payload|, f.opId).value + f.payload
    ensures Parse(request) == Some([f]) && request != []
  {
    ParseOfEncode([f]);
    assert EncodeAll([f]) == f.Encode() + EncodeAll([]);
    assert request == f.Encode();
  }
}
