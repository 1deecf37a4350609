/** What `NfcDisk.readinto` and `NfcDisk.write` put on the wire: the argument checks in the
    order the code makes them, the packed request, and the fragments of a write. */
module Requests {
  import opened Wire
  import opened Frames
  import opened Pieces
  import opened Reading

  /** The fields of an open disk that requests depend on. */
  datatype Session = Session(
    lib: FastLz.Library, handle: int, sectorSize: nat, compression: nat, bufferSize: nat)

  /** A request that is refused locally: the exception, and whether an operation id was
      taken before it was raised. */
  datatype Prepared = Refuse(error: Error, tookOpId: bool) | Send(frame: Bytes)

  function PrepareRead(p: Session, opId: nat, start: int, num: int, bufLen: nat,
                       readOnly: bool): Prepared {
    if num < 1 then Refuse(ValueError, false)
    else if readOnly then Refuse(TypeError, false)
    else if bufLen < num * p.sectorSize then Refuse(RuntimeError, false)
    else match Pack(ReadFields(p.handle, Opcode(NFC_AIO_IO_READ, p.compression),
                               start * p.sectorSize, num * p.sectorSize))
         case None => Refuse(StructError, false)
         case Some(payload) =>
           match PackAioHdr(NFC_AIO_MSG_IO, |payload|, opId)
           case None => Refuse(StructError, true)
           case Some(hdr) => Send(hdr + payload)
  }

  /** The request of a read fits its fields. */
  predicate ReadFits(p: Session, opId: nat, offset: int, length: int) {
    && 0 <= p.handle < U64_BOUND && p.compression < U32_BOUND && 0 <= offset < U64_BOUND
    && 0 <= length < U32_BOUND && opId < U32_BOUND
  }

  /** Past its argument checks, a read sends its request exactly when it fits; otherwise it
      raises `struct.error`, having taken an op id only if it is the id that does not fit. */
  lemma {:induction false} ReadIsSent(p: Session, opId: nat, start: int, num: int, bufLen: nat)
    requires num >= 1 && num * p.sectorSize <= bufLen
    ensures var r := PrepareRead(p, opId, start, num, bufLen, false);
      && (r.Send? <==> ReadFits(p, opId, start * p.sectorSize, num * p.sectorSize))
      && (r.Refuse? ==> r.error == StructError)
      && (r.Refuse? ==>
            (r.tookOpId <==> ReadFits(p, 0, start * p.sectorSize, num * p.sectorSize)))
  {
    hide Pack, ReadFields;
    NotNegative(num, p.sectorSize);
    ReadFieldsFit(p.handle, p.compression, start * p.sectorSize, num * p.sectorSize);
  }

  lemma {:induction false} ReadFieldsFit(handle: int, ctype: nat, offset: int, length: nat)
    ensures var fs := ReadFields(handle, Opcode(NFC_AIO_IO_READ, ctype), offset, length);
      && (Pack(fs).Some? <==>
            0 <= handle < U64_BOUND && ctype < U32_BOUND && 0 <= offset < U64_BOUND && length < U32_BOUND)
      && (Pack(fs).Some? ==> |Pack(fs).value| == 44)
  {
    var fs := ReadFields(handle, Opcode(NFC_AIO_IO_READ, ctype), offset, length);
    assert fs[0].Fits() && fs[1].Fits() && fs[2].Fits() && fs[4].Fits() <==>
      0 <= handle < U64_BOUND && ctype < U32_BOUND && 0 <= offset < U64_BOUND && length < U32_BOUND;
    assert fs[4].Fits() ==> fs[3].Fits() && fs[5].Fits();
    assert fs[6].Fits();
    assert AllFit(fs) <==> fs[0].Fits() && fs[1].Fits() && fs[2].Fits() && fs[4].Fits();
    if AllFit(fs) {
      ReadRequestLayout(handle, Opcode(NFC_AIO_IO_READ, ctype), offset, length, []);
    }
  }

  lemma {:induction false} NotNegative(n: int, m: int)
    requires n >= 0 && m >= 0
    ensures n * m >= 0
  {
  }

  // ---------- write fragments ----------

  function Chunk(p: Session, data: Bytes, at: nat): Bytes
    requires at <= |data|
  {
    data[at..Min(at + p.bufferSize, |data|)]
  }

  datatype Coded = Coded(ctype: nat, extra: Bytes)

  /** Compress a chunk when the session asks for it and it pays; a ValueError of the codec
      passes through. */
  function Encode(p: Session, chunk: Bytes): Result<Coded> {
    if p.compression == NFC_COMPRESSION_FASTLZ && |chunk| >= 16 then
      match FastLz.Compress(p.lib, chunk)
      case Err(e) => Err(e)
      case Ok(c) =>
        if c != [] && |c| < |chunk| then Ok(Coded(NFC_COMPRESSION_FASTLZ, c))
        else Ok(Coded(NFC_COMPRESSION_NONE, chunk))
    else Ok(Coded(NFC_COMPRESSION_NONE, chunk))
  }

  /** The fragment of a write of `data` that starts at byte `at` of it. */
  function WriteFrame(p: Session, opId: nat, offset: int, data: Bytes, at: nat): (r: Result<AioFrame>)
    requires at < |data|
    ensures r.Ok? ==> r.value.Sendable()
    ensures r.Err? ==> r.error == ValueError || r.error == StructError
  {
    var chunk := Chunk(p, data, at);
    match Encode(p, chunk)
    case Err(e) => Err(e)
    case Ok(c) =>
      match Pack(FragmentFields(p.handle, Opcode(NFC_AIO_IO_WRITE, c.ctype), offset, |data|, at,
                                |chunk|, |c.extra|))
      case None => Err(StructError)
      case Some(payload) =>
        if PackAioHdr(NFC_AIO_MSG_IO, |payload|, opId).None? then Err(StructError)
        else Ok(AioFrame(NFC_AIO_MSG_IO, opId, payload, c.extra))
  }

  /** The fragments that get sent, and the exception that stops them if there is one. */
  datatype WriteRun = WriteRun(frames: seq<AioFrame>, error: Option<Error>)

  function WriteFrames(p: Session, opId: nat, offset: int, data: Bytes, at: nat): (r: WriteRun)
    requires p.bufferSize >= 1 && at <= |data|
    ensures forall k :: 0 <= k < |r.frames| ==> r.frames[k].Sendable()
    ensures r.error.Some? ==> r.error.value == ValueError || r.error.value == StructError
    decreases |data| - at
  {
    if at == |data| then WriteRun([], None)
    else match WriteFrame(p, opId, offset, data, at)
         case Err(e) => WriteRun([], Some(e))
         case Ok(f) =>
           var rest := WriteFrames(p, opId, offset, data, at + |Chunk(p, data, at)|);
           WriteRun([f] + rest.frames, rest.error)
  }

  /** The arguments fit their fields. */
  predicate WriteFits(p: Session, opId: nat, offset: int, length: nat) {
    && 0 <= p.handle < U64_BOUND && 0 <= offset < U64_BOUND && length < U32_BOUND
    && opId < U32_BOUND
  }

  /** The codec does not raise on a chunk it is asked to compress. */
  predicate CodecWorks(p: Session, chunk: Bytes) {
    p.compression == 2 && |chunk| >= 16 ==> FastLz.Compress(p.lib, chunk).Ok?
  }

  predicate AllEncode(p: Session, data: Bytes, at: nat)
    requires p.bufferSize >= 1 && at <= |data|
    decreases |data| - at
  {
    at == |data| || (CodecWorks(p, data[at..Min(at + p.bufferSize, |data|)])
                     && AllEncode(p, data, Min(at + p.bufferSize, |data|)))
  }

  /** Compressing this chunk is called for and pays. */
  predicate Pays(p: Session, chunk: Bytes) {
    && p.compression == 2 && |chunk| >= 16 && FastLz.Compress(p.lib, chunk).Ok?
    && 1 <= |FastLz.Compress(p.lib, chunk).value| < |chunk|
  }

  lemma {:induction false} EncodeChoice(p: Session, chunk: Bytes)
    ensures Encode(p, chunk).Ok? <==> CodecWorks(p, chunk)
    ensures Encode(p, chunk).Ok? ==>
      Encode(p, chunk).value
      == if Pays(p, chunk) then Coded(2, FastLz.Compress(p.lib, chunk).value) else Coded(0, chunk)
  {
    hide FastLz.Compress;
  }

  lemma {:induction false} EncodeFits(p: Session, chunk: Bytes)
    requires Encode(p, chunk).Ok?
    ensures |Encode(p, chunk).value.extra| <= |chunk| && Encode(p, chunk).value.ctype <= 2
  {
    hide FastLz.Compress;
  }

  lemma {:induction false} WriteFrameFits(p: Session, opId: nat, offset: int, data: Bytes, at: nat)
    requires at < |data| && p.bufferSize >= 1
    ensures WriteFrame(p, opId, offset, data, at).Ok? <==>
      WriteFits(p, opId, offset, |data|) && CodecWorks(p, Chunk(p, data, at))
  {
    hide Encode, CodecWorks, FastLz.Compress, Pack, FragmentFields;
    var chunk := Chunk(p, data, at);
    EncodeChoice(p, chunk);
    if Encode(p, chunk).Ok? {
      var c := Encode(p, chunk).value;
      EncodeFits(p, chunk);
      FragmentFits(p.handle, c.ctype, offset, |data|, at, |chunk|, |c.extra|);
    }
  }

  lemma {:induction false} FragmentFits(handle: int, ctype: nat, offset: int, total: nat, at: nat,
                                        chunk: nat, extra: nat)
    requires at < total && chunk <= total && extra <= chunk && ctype <= 2
    ensures var fs := FragmentFields(handle, Opcode(NFC_AIO_IO_WRITE, ctype), offset, total, at, chunk,
                                     extra);
      && (Pack(fs).Some? <==> 0 <= handle < U64_BOUND && 0 <= offset < U64_BOUND && total < U32_BOUND)
      && (Pack(fs).Some? ==> |Pack(fs).value| == 44)
  {
    var fs := FragmentFields(handle, Opcode(NFC_AIO_IO_WRITE, ctype), offset, total, at, chunk, extra);
    assert fs[0].Fits() && fs[2].Fits() && fs[3].Fits() <==>
      0 <= handle < U64_BOUND && 0 <= offset < U64_BOUND && total < U32_BOUND;
    assert fs[1].Fits() && fs[7].Fits();
    assert fs[3].Fits() ==> fs[4].Fits() && fs[5].Fits() && fs[6].Fits();
    assert AllFit(fs) <==> fs[0].Fits() && fs[2].Fits() && fs[3].Fits();
    if AllFit(fs) {
      FragmentLayout(handle, Opcode(NFC_AIO_IO_WRITE, ctype), offset, total, at, chunk, extra, []);
    }
  }

  /** A write of at least one byte gets all its fragments out exactly when its arguments fit
      their fields and no chunk makes the codec raise. */
  lemma {:induction false} WriteSucceedsIff(p: Session, opId: nat, offset: int, data: Bytes, at: nat)
    requires p.bufferSize >= 1 && at < |data|
    ensures WriteFrames(p, opId, offset, data, at).error == None <==>
      WriteFits(p, opId, offset, |data|) && AllEncode(p, data, at)
    decreases |data| - at
  {
    hide WriteFrame, WriteFits, CodecWorks;
    WriteFrameFits(p, opId, offset, data, at);
    var next := at + |Chunk(p, data, at)|;
    if next < |data| {
      WriteSucceedsIff(p, opId, offset, data, next);
    }
  }

  // ---------- the shape of a write ----------

  lemma {:induction false} WritePayload(p: Session, opId: nat, offset: int, data: Bytes, at: nat)
    requires at < |data| && p.bufferSize >= 1 && WriteFrame(p, opId, offset, data, at).Ok?
    ensures var f := WriteFrame(p, opId, offset, data, at).value;
      var c := Encode(p, Chunk(p, data, at)).value;
      && |f.payload| == 44 && f.extra == c.extra && f.msgType == NFC_AIO_MSG_IO && f.opId == opId
      && GetU64(f.payload, 0) == p.handle && GetU64(f.payload, 8) == Opcode(NFC_AIO_IO_WRITE, c.ctype)
      && GetU64(f.payload, 16) == offset && GetU32(f.payload, 24) == |data|
      && GetU32(f.payload, 28) == at && GetU32(f.payload, 32) == |Chunk(p, data, at)|
      && GetU32(f.payload, 36) == |c.extra|
  {
    var f, chunk := WriteFrame(p, opId, offset, data, at).value, Chunk(p, data, at);
    var c := Encode(p, chunk).value;
    FragmentLayout(p.handle, Opcode(NFC_AIO_IO_WRITE, c.ctype), offset, |data|, at, |chunk|,
                   |c.extra|, []);
    assert f.payload + [] == f.payload;
  }

  lemma {:induction false} EncodeShape(p: Session, chunk: Bytes)
    requires chunk != [] && Encode(p, chunk).Ok? && |chunk| < U32_BOUND
    ensures var c := Encode(p, chunk).value;
      && 1 <= |c.extra| <= |chunk|
      && (c.ctype == NFC_COMPRESSION_FASTLZ
          || (c.ctype == NFC_COMPRESSION_NONE && c.extra == chunk))
      && (FastLz.Contract(p.lib) ==>
            forall dest :: Decoded(p.lib, Piece(dest, |chunk|, c.ctype, c.extra)) == Some(chunk))
  {
    if FastLz.Contract(p.lib) && Encode(p, chunk).value.ctype == NFC_COMPRESSION_FASTLZ {
      FastLz.RoundTrip(p.lib, chunk);
    }
  }

  /** How a fragment carries its chunk: as type 2, compressed, exactly when the session asks for
      FastLZ, the chunk has at least 16 bytes and the result is shorter and not empty; as type
      0, as it is, in every other case. */
  lemma {:induction false} WriteChoice(p: Session, opId: nat, offset: int, data: Bytes, at: nat)
    requires at < |data| && p.bufferSize >= 1 && WriteFrame(p, opId, offset, data, at).Ok?
    ensures var f := WriteFrame(p, opId, offset, data, at).value;
      var chunk := data[at..Min(at + p.bufferSize, |data|)];
      && |f.payload| == 44
      && GetU64(f.payload, 8) / U32_BOUND == (if Pays(p, chunk) then 2 else 0)
      && f.extra == (if Pays(p, chunk) then FastLz.Compress(p.lib, chunk).value else chunk)
  {
    hide WriteFrame, Encode, Pays, FastLz.Compress, GetU32, GetU64;
    EncodedIsOk(p, opId, offset, data, at);
    WritePayload(p, opId, offset, data, at);
    EncodeChoice(p, Chunk(p, data, at));
    var f := WriteFrame(p, opId, offset, data, at).value;
    var c := Encode(p, Chunk(p, data, at)).value;
    OpcodeSplits(f.payload, NFC_AIO_IO_WRITE, c.ctype);
  }

  lemma {:induction false} EncodedIsOk(p: Session, opId: nat, offset: int, data: Bytes, at: nat)
    requires at < |data| && WriteFrame(p, opId, offset, data, at).Ok?
    ensures Encode(p, Chunk(p, data, at)).Ok?
  {
    hide Encode, Pack, FragmentFields;
  }

  /** A session without compression sends exactly the data and 60 bytes a fragment. */
  lemma {:induction false} RawWriteSize(p: Session, opId: nat, offset: int, data: Bytes, at: nat)
    requires p.bufferSize >= 1 && at <= |data| && p.compression != 2
    requires WriteFrames(p, opId, offset, data, at).error == None
    ensures var fs := WriteFrames(p, opId, offset, data, at).frames;
      AllSendable(fs) && |EncodeAll(fs)| == |data| - at + 60 * |fs|
    decreases |data| - at
  {
    hide WriteFrame, Encode, IsReply, ToPiece, WellFormed, GetU32, GetU64, EncodeAll, AioFrame.Encode;
    if at < |data| {
      var f, next, rest := WriteStep(p, opId, offset, data, at);
      RawWriteSize(p, opId, offset, data, next);
      WriteFrameShape(p, opId, offset, data, at);
      WriteChoice(p, opId, offset, data, at);
      SumsCons(f, rest);
    } else {
      NothingEncodes();
    }
  }

  lemma {:induction false} NothingEncodes()
    ensures EncodeAll([]) == []
  {
  }

  lemma {:induction false} FragmentShape(opId: nat, f: AioFrame, p: Piece)
    requires f.msgType == NFC_AIO_MSG_IO && f.opId == opId < U32_BOUND && |f.payload| == 44
    requires GetU64(f.payload, 8) == Opcode(NFC_AIO_IO_WRITE, p.ctype)
    requires GetU32(f.payload, 28) == p.dest && GetU32(f.payload, 32) == p.chunkLen
    requires GetU32(f.payload, 36) == |p.extra| >= 1 && f.extra == p.extra
    requires p.ctype == NFC_COMPRESSION_FASTLZ
          || (p.ctype == NFC_COMPRESSION_NONE && |p.extra| == p.chunkLen)
    ensures IsReply(opId, f) && WellFormed(f) && ToPiece(f) == p
    ensures GetU32(f.payload, 8) == NFC_AIO_IO_WRITE && f.Size() == 60 + |f.extra|
  {
    OpcodeSplits(f.payload, NFC_AIO_IO_WRITE, p.ctype);
  }

  /** Everything a reader needs to know of the layout of one write fragment. */
  lemma {:induction false} WriteFrameShape(p: Session, opId: nat, offset: int, data: Bytes, at: nat)
    requires at < |data| && p.bufferSize >= 1 && WriteFrame(p, opId, offset, data, at).Ok?
    ensures var f := WriteFrame(p, opId, offset, data, at).value;
      && IsReply(opId, f) && WellFormed(f) && GetU32(f.payload, 8) == NFC_AIO_IO_WRITE
      && ToPiece(f).dest == at && ToPiece(f).chunkLen == |Chunk(p, data, at)|
      && 1 <= |f.extra| <= |Chunk(p, data, at)| && f.Size() == 60 + |f.extra|
  {
    var piece := WritePiece(p, opId, offset, data, at);
  }

  lemma {:induction false} WritePiece(p: Session, opId: nat, offset: int, data: Bytes, at: nat)
    returns (piece: Piece)
    requires at < |data| && p.bufferSize >= 1 && WriteFrame(p, opId, offset, data, at).Ok?
    ensures Encode(p, Chunk(p, data, at)).Ok? && |Chunk(p, data, at)| < U32_BOUND
    ensures var c := Encode(p, Chunk(p, data, at)).value;
      piece == Piece(at, |Chunk(p, data, at)|, c.ctype, c.extra)
    ensures 1 <= |piece.extra| <= piece.chunkLen
    ensures var f := WriteFrame(p, opId, offset, data, at).value;
      && IsReply(opId, f) && WellFormed(f) && ToPiece(f) == piece
      && GetU32(f.payload, 8) == NFC_AIO_IO_WRITE && f.Size() == 60 + |f.extra|
  {
    WriteFrameFits(p, opId, offset, data, at);
    WritePayload(p, opId, offset, data, at);
    var f, chunk := WriteFrame(p, opId, offset, data, at).value, Chunk(p, data, at);
    var c := Encode(p, chunk).value;
    EncodeShape(p, chunk);
    piece := Piece(at, |chunk|, c.ctype, c.extra);
    hide *;
    FragmentShape(opId, f, piece);
  }

  /** Under the library's contract, the fragment decodes to its own part of the data. */
  lemma {:induction false} WritePieceOf(p: Session, opId: nat, offset: int, data: Bytes, at: nat)
    requires at < |data| && p.bufferSize >= 1 && WriteFrame(p, opId, offset, data, at).Ok?
    requires FastLz.Contract(p.lib)
    ensures PieceOf(p.lib, ToPiece(WriteFrame(p, opId, offset, data, at).value), data)
  {
    hide WriteFrame;
    var piece := WritePiece(p, opId, offset, data, at);
    EncodeShape(p, Chunk(p, data, at));
  }

  /** The opcode's two halves come back out of its eight bytes. */
  lemma {:induction false} OpcodeSplits(payload: Bytes, direction: nat, ctype: nat)
    requires 16 <= |payload| && direction < U32_BOUND && GetU64(payload, 8) == Opcode(direction, ctype)
    ensures GetU32(payload, 8) == direction && GetU64(payload, 8) / U32_BOUND == ctype
  {
    U64IsTwoU32(payload, 8);
  }

  lemma {:induction false} WriteStep(p: Session, opId: nat, offset: int, data: Bytes, at: nat)
    returns (f: AioFrame, next: nat, rest: seq<AioFrame>)
    requires p.bufferSize >= 1 && at < |data|
    requires WriteFrames(p, opId, offset, data, at).error == None
    ensures next == at + |Chunk(p, data, at)| == Min(at + p.bufferSize, |data|)
    ensures at < next <= |data|
    ensures WriteFrame(p, opId, offset, data, at) == Ok(f)
    ensures WriteFrames(p, opId, offset, data, next) == WriteRun(rest, None)
    ensures WriteFrames(p, opId, offset, data, at).frames == [f] + rest
  {
    hide WriteFrame;
    f := WriteFrame(p, opId, offset, data, at).value;
    next := at + |Chunk(p, data, at)|;
    rest := WriteFrames(p, opId, offset, data, next).frames;
  }

  lemma {:induction false} TimesStep(n: int, m: int)
    ensures (n + 1) * m == n * m + m
  {
  }

  /** The fragments number exactly the length over the buffer size, rounded up. */
  lemma {:induction false} WriteCount(p: Session, opId: nat, offset: int, data: Bytes, at: nat)
    requires p.bufferSize >= 1 && at < |data|
    requires WriteFrames(p, opId, offset, data, at).error == None
    ensures var n := |WriteFrames(p, opId, offset, data, at).frames|;
      (n - 1) * p.bufferSize < |data| - at <= n * p.bufferSize
    decreases |data| - at
  {
    hide WriteFrame;
    var f, next, rest := WriteStep(p, opId, offset, data, at);
    TimesStep(|rest|, p.bufferSize);
    if next < |data| {
      WriteCount(p, opId, offset, data, next);
      TimesStep(|rest| - 1, p.bufferSize);
    }
  }

  /** Fragment `k` starts at `k` buffer sizes. */
  lemma {:induction false} WriteFrameAt(p: Session, opId: nat, offset: int, data: Bytes, at: nat,
                                        k: nat, there: nat)
    requires p.bufferSize >= 1 && at <= |data| && there == at + k * p.bufferSize
    requires WriteFrames(p, opId, offset, data, at).error == None
    requires k < |WriteFrames(p, opId, offset, data, at).frames|
    ensures there < |data|
    ensures WriteFrame(p, opId, offset, data, there)
         == Ok(WriteFrames(p, opId, offset, data, at).frames[k])
    decreases k
  {
    hide WriteFrame, Chunk;
    var f, next, rest := WriteStep(p, opId, offset, data, at);
    if k > 0 {
      TimesStep(k - 1, p.bufferSize);
      WriteFrameAt(p, opId, offset, data, next, k - 1, there);
    }
  }

  lemma {:induction false} SumChunksCons(p: Piece, ps: seq<Piece>)
    ensures SumChunks([p] + ps) == p.chunkLen + SumChunks(ps)
    ensures SumExtras([p] + ps) == |p.extra| + SumExtras(ps)
  {
    if ps == [] {
      assert Init([p] + ps) == [] && Last([p] + ps) == p;
    } else {
      assert Init([p] + ps) == [p] + Init(ps) && Last([p] + ps) == Last(ps);
      SumChunksCons(p, Init(ps));
    }
  }

  /** The chunks add up to the data, the extras to no more, and each frame costs 60 bytes
      besides. */
  lemma {:induction false} WriteSums(p: Session, opId: nat, offset: int, data: Bytes, at: nat)
    requires p.bufferSize >= 1 && at <= |data|
    requires WriteFrames(p, opId, offset, data, at).error == None
    ensures var fs := WriteFrames(p, opId, offset, data, at).frames;
      && AllSendable(fs)
      && SumChunks(PiecesIn(fs)) == |data| - at
      && SumExtras(PiecesIn(fs)) <= |data| - at
      && |EncodeAll(fs)| == SumExtras(PiecesIn(fs)) + 60 * |fs|
    decreases |data| - at
  {
    if at < |data| {
      var f, next, rest := WriteStep(p, opId, offset, data, at);
      WriteSums(p, opId, offset, data, next);
      WriteFrameShape(p, opId, offset, data, at);
      SumsCons(f, rest);
    }
  }

  lemma {:induction false} SumsCons(f: AioFrame, rest: seq<AioFrame>)
    requires f.Sendable() && AllSendable(rest)
    ensures AllSendable([f] + rest)
    ensures SumChunks(PiecesIn([f] + rest)) == ToPiece(f).chunkLen + SumChunks(PiecesIn(rest))
    ensures SumExtras(PiecesIn([f] + rest)) == |f.extra| + SumExtras(PiecesIn(rest))
    ensures |EncodeAll([f] + rest)| == f.Size() + |EncodeAll(rest)|
  {
    assert ([f] + rest)[1..] == rest;
    SumChunksCons(ToPiece(f), PiecesIn(rest));
  }
}
