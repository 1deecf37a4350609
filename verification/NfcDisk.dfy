/** `NfcDisk`: the object itself, its receive loops over the caller's buffer and its close.
    Every method is proved to have the effect `Client` gives, however the socket cuts the
    stream, unless a `sendall` fails, which cuts the effect short. */
module NfcDisks {
  import opened Wire
  import opened Frames
  import opened Pieces
  import opened Reading
  import opened Requests
  import opened Sockets
  import Client

  /** `data[at : at + len(bs)] = bs` */
  method Put(buf: array<byte>, at: nat, bs: Bytes)
    requires at + |bs| <= buf.Length
    modifies buf
    ensures buf[..] == Splice(old(buf[..]), at, bs)
  {
    forall i | 0 <= i < |bs| {
      buf[at + i] := bs[i];
    }
  }

  class NfcDisk {
    const sock: Socket
    const lib: FastLz.Library
    const compression: nat
    const aioBufferSize: nat
    const aioBufferCount: nat
    var opId: nat
    var handle: int
    var sectorSize: nat
    var closed: bool

    /** What `open_disk` establishes: a reply's sector size of 0 is replaced by 512 and a
        buffer size below 1 is refused. */
    ghost predicate Valid()
      reads this, sock
    {
      sock.Valid() && sectorSize >= 1 && aioBufferSize >= 1
    }

    function Params(): Session
      reads this
    {
      Session(lib, handle, sectorSize, compression, aioBufferSize)
    }

    constructor (sock: Socket, lib: FastLz.Library, handle: int, sectorSize: nat,
                 compression: nat, aioBufferSize: nat, aioBufferCount: nat)
      requires sock.Valid() && sectorSize >= 1 && aioBufferSize >= 1
      ensures Valid() && this.sock == sock && opId == 0 && !closed
      ensures Params() == Session(lib, handle, sectorSize, compression, aioBufferSize)
      ensures this.aioBufferCount == aioBufferCount
    {
      this.sock, this.lib, this.handle, this.sectorSize := sock, lib, handle, sectorSize;
      this.compression, this.aioBufferSize, this.aioBufferCount
        := compression, aioBufferSize, aioBufferCount;
      opId, closed := 0, false;
    }

    method NextOpId() returns (id: nat)
      modifies this`opId
      ensures id == old(opId) && opId == old(opId) + 1
    {
      id := opId;
      opId := opId + 1;
    }

    // ---------- readinto ----------

    /** The header and payload of the next fragment of operation `id`. */
    method RecvReplyBody(id: nat) returns (r: Result<Bytes>)
      requires sock.Valid()
      modifies sock`pos
      ensures sock.Valid()
      ensures ReplyBody(sock.inbox, old(sock.pos), id)
           == if r.Ok? then Body(r.value, sock.pos) else NoBody(sock.pos)
      ensures r.Err? ==> r.error == ProtocolError
    {
      var hdr := sock.Recvn(NFC_AIO_HDR_SIZE);
      if hdr.Err? {
        return Err(hdr.error);
      }
      var h := UnpackAioHdr(hdr.value);
      if h.Err? || h.value.msgType != NFC_AIO_MSG_IO || h.value.opId != id {
        return Err(ProtocolError);
      }
      r := sock.Recvn(h.value.size);
    }

    /** A compressed extra, decompressed into a temporary buffer. */
    method RecvFastLz(h: Shape) returns (r: Result<Bytes>)
      requires sock.Valid()
      modifies sock`pos
      ensures sock.Valid() && sock.pos == Min(old(sock.pos) + h.extraLen, |sock.inbox|)
      ensures if old(sock.pos) + h.extraLen > |sock.inbox| then r == Err(ProtocolError)
        else
          var p := Piece(h.dest, h.chunkLen, NFC_COMPRESSION_FASTLZ,
                         sock.inbox[old(sock.pos)..old(sock.pos) + h.extraLen]);
          r == match Decoded(lib, p)
               case Some(chunk) => Ok(chunk)
               case None => Err(DecodeError(lib, p))
    {
      var extra := sock.Recvn(h.extraLen);
      if extra.Err? {
        return Err(ProtocolError);
      }
      var chunk := FastLz.Decompress(lib, extra.value, h.chunkLen);
      if chunk.Err? {
        return Err(if chunk.error == ValueError then ProtocolError else chunk.error);
      }
      r := if |chunk.value| != h.chunkLen then Err(ProtocolError) else chunk;
    }

    /** The packed form of an extra: as received, right after the ones before it. */
    method RecvPacked(ghost req: Request, h: Shape, packed: nat, length: nat, buf: array<byte>)
      returns (error: Option<Error>)
      requires sock.Valid() && req.lib == lib && req.length == length <= buf.Length && req.skip
      modifies sock`pos, buf
      ensures sock.Valid()
      ensures Agrees(req, packed, TakeExtra(req, sock.inbox, old(sock.pos), packed, h), error,
                     sock.pos, old(buf[..]), buf[..])
    {
      hide Splice, Decoded;
      if packed + h.extraLen > length {
        SpliceNothing(buf[..], 0);
        return Some(ProtocolError);
      }
      var ok := sock.RecvnInto(buf, packed, packed + h.extraLen);
      error := if ok then None else Some(ProtocolError);
    }

    /** The decoded form of an extra, at its place in the request. */
    method RecvDecoded(ghost req: Request, h: Shape, ghost packed: nat, length: nat,
                       buf: array<byte>)
      returns (error: Option<Error>)
      requires sock.Valid() && req.lib == lib && req.length == length <= buf.Length && !req.skip
      requires h.dest + h.chunkLen <= length
      requires h.ctype == NFC_COMPRESSION_FASTLZ
            || (h.ctype == NFC_COMPRESSION_NONE && h.extraLen == h.chunkLen)
      modifies sock`pos, buf
      ensures sock.Valid()
      ensures Agrees(req, packed, TakeExtra(req, sock.inbox, old(sock.pos), packed, h), error,
                     sock.pos, old(buf[..]), buf[..])
    {
      hide Splice, Decoded, DecodeError;
      if h.ctype == NFC_COMPRESSION_NONE {
        var ok := sock.RecvnInto(buf, h.dest, h.dest + h.chunkLen);
        RawDecodes(lib, Piece(h.dest, h.chunkLen, h.ctype, sock.inbox[old(sock.pos)..sock.pos]));
        return if ok then None else Some(ProtocolError);
      }
      SpliceNothing(buf[..], 0);
      var chunk := RecvFastLz(h);
      if chunk.Err? {
        return Some(chunk.error);
      }
      Put(buf, h.dest, chunk.value);
      error := None;
    }

    /** The loop of `readinto`: `filled`, `wire`, `packed`, `seen` and `fragments` are what
        the accepted pieces add up to, and the buffer is what they build. */
    method ReceiveReplies(id: nat, length: nat, skip: bool, buf: array<byte>)
      returns (r: Result<ReadResult>)
      requires sock.Valid() && length <= buf.Length
      modifies sock`pos, buf
      ensures sock.Valid()
      ensures var req := Request(lib, id, length, skip);
        var run := Replies(req, sock.inbox, old(sock.pos), []);
        && sock.pos == run.pos && buf[..] == BufferAfter(req, old(buf[..]), run)
        && r == if run.Done? then Ok(Client.Result(req, run.acc)) else Err(run.error)
    {
      hide NextPiece, TakeExtra, CheckBody, ReplyBody, Replies, Filled, Accepted, BufferAfter;
      hide SumChunks, SumExtras, Table, Dests, Splice;
      ghost var req, before, acc := Request(lib, id, length, skip), buf[..], [];
      var filled, wire, packed := 0, 0, 0;
      var fragments: seq<ReadFragment>, seen: set<nat> := [], {};
      NoPieces(req, before);
      while filled < length
        invariant sock.Valid() && Accepted(req, acc) && |before| == buf.Length
        invariant filled == SumChunks(acc) && wire == SumExtras(acc) && seen == Dests(acc)
        invariant packed == (if skip then SumExtras(acc) else 0)
        invariant fragments == if skip then Table(acc) else []
        invariant buf[..] == Filled(req, before, acc)
        invariant Replies(req, sock.inbox, old(sock.pos), [])
               == Replies(req, sock.inbox, sock.pos, acc)
        decreases length - filled
      {
        ghost var at := sock.pos;
        var body := RecvReplyBody(id);
        if body.Err? {
          NoReplyEnds(req, sock.inbox, at, acc, before);
          return Err(body.error);
        }
        var shape := CheckBody(body.value, length, seen);
        if shape.Err? {
          BadBodyEnds(req, sock.inbox, at, acc, before);
          return Err(shape.error);
        }
        var h := shape.value;
        ghost var step := NextPiece(req, sock.inbox, at, acc);
        ExtraIsNext(req, sock.inbox, at, acc);
        var error;
        if skip {
          error := RecvPacked(req, h, packed, length, buf);
        } else {
          error := RecvDecoded(req, h, SumExtras(acc), length, buf);
        }
        if error.Some? {
          RefusalEnds(req, sock.inbox, at, acc, before);
          return Err(error.value);
        }
        TakenPiece(req, sock.inbox, at, acc, before, h, step.piece, step.pos);
        seen := seen + {h.dest};
        if skip {
          fragments := fragments
            + [ReadFragment(h.dest, h.chunkLen, h.ctype, packed, h.extraLen)];
          packed := packed + h.extraLen;
        }
        wire := wire + h.extraLen;
        filled := filled + h.chunkLen;
        acc := acc + [step.piece];
      }
      EnoughEnds(req, sock.inbox, sock.pos, acc, before);
      r := Ok(ReadResult(length, wire, if skip then fragments else []));
    }

    /** `readinto` */
    method ReadInto(start: int, num: int, buf: array<byte>, readOnly: bool, skip: bool)
      returns (r: Result<ReadResult>)
      requires Valid()
      modifies this`opId, sock`pos, sock`sent, buf
      ensures Valid()
      ensures var eff := Client.ReadInto(Params(), old(opId), start, num, old(buf[..]), readOnly,
                                         skip, sock.inbox, old(sock.pos));
        && opId == eff.effect.opId
        && if r == Err(OsError) then
             && CutShort(old(sock.sent), sock.sent, eff.effect.sent)
             && sock.pos == old(sock.pos) && buf[..] == old(buf[..])
           else
             && r == eff.effect.result && sock.sent == old(sock.sent) + eff.effect.sent
             && sock.pos == eff.effect.pos && buf[..] == eff.buf
      ensures !sock.IsOpen() ==> sock.sent == old(sock.sent)
    {
      hide Replies, BufferAfter, Pack, PackAioHdr, ReadFields, Opcode, Client.Result;
      if num < 1 {
        return Err(ValueError);
      }
      if readOnly {
        return Err(TypeError);
      }
      var length := num * sectorSize;
      if buf.Length < length {
        return Err(RuntimeError);
      }
      var payload := Pack(ReadFields(handle, Opcode(NFC_AIO_IO_READ, compression),
                                     start * sectorSize, length));
      if payload.None? {
        return Err(StructError);
      }
      var id := NextOpId();
      var hdr := PackAioHdr(NFC_AIO_MSG_IO, |payload.value|, id);
      if hdr.None? {
        return Err(StructError);
      }
      var ok := sock.SendAll(hdr.value + payload.value);
      if !ok {
        return Err(OsError);
      }
      r := ReceiveReplies(id, length, skip, buf);
    }

    /** `read`: a fresh buffer of exactly the requested size. */
    method Read(start: int, num: int) returns (r: Result<Bytes>)
      requires Valid()
      modifies this`opId, sock`pos, sock`sent
      ensures Valid()
      ensures var eff := Client.Read(Params(), old(opId), start, num, sock.inbox, old(sock.pos));
        && opId == eff.opId
        && if r == Err(OsError) then
             CutShort(old(sock.sent), sock.sent, eff.sent) && sock.pos == old(sock.pos)
           else
             && r == eff.result && sock.sent == old(sock.sent) + eff.sent && sock.pos == eff.pos
    {
      if num < 1 {
        return Err(ValueError);
      }
      var n: nat := num * sectorSize;
      var buf := new byte[n](_ => 0);
      assert buf[..] == Zeros(n);
      var got := ReadInto(start, num, buf, false, false);
      r := if got.Ok? then Ok(buf[..]) else Err(got.error);
    }

    // ---------- write ----------

    method RecvReply() returns (r: Result<Client.Reply>)
      requires sock.Valid()
      modifies sock`pos
      ensures sock.Valid()
      ensures Client.RecvReply(sock.inbox, old(sock.pos)) == Client.Received(sock.pos, r)
    {
      var hdr := sock.Recvn(NFC_AIO_HDR_SIZE);
      if hdr.Err? {
        return Err(hdr.error);
      }
      var h := ReadHdr(hdr.value);
      if h.Err? {
        return Err(h.error);
      }
      var body := sock.Recvn(h.value.size);
      if body.Err? {
        return Err(body.error);
      }
      if h.value.msgType == NFC_AIO_MSG_ERROR {
        return Err(ProtocolError);
      }
      r := Ok(Client.Reply(h.value.msgType, h.value.opId, body.value));
    }

    method RecvReplyTo(msgType: nat, id: nat) returns (r: Result<Bytes>)
      requires sock.Valid()
      modifies sock`pos
      ensures sock.Valid()
      ensures Client.RecvReplyTo(sock.inbox, old(sock.pos), msgType, id) == (sock.pos, r)
    {
      var got := RecvReply();
      if got.Err? {
        return Err(got.error);
      }
      r := if got.value.msgType != msgType || got.value.opId != id then Err(ProtocolError)
           else Ok(got.value.body);
    }

    /** The loop of `write`: the fragments of `data` under one operation id. */
    method SendFragments(id: nat, offset: int, data: Bytes) returns (error: Option<Error>)
      requires Valid()
      modifies sock`sent
      ensures Valid()
      ensures var run := WriteFrames(Params(), id, offset, data, 0);
        if error == Some(OsError) then
          CutShort(old(sock.sent), sock.sent, EncodeAll(run.frames))
        else error == run.error && sock.sent == old(sock.sent) + EncodeAll(run.frames)
      ensures !sock.IsOpen() ==> sock.sent == old(sock.sent)
    {
      hide WriteFrames, WriteFrame, EncodeAll, AioFrame.Encode, Chunk;
      var at := 0;
      var p := Params();
      ghost var run := WriteFrames(p, id, offset, data, 0);
      ghost var out: Bytes := [];
      while at < |data|
        invariant at <= |data| && Valid() && Params() == p
        invariant sock.sent == old(sock.sent) + out
        invariant var rest := WriteFrames(p, id, offset, data, at);
          run.error == rest.error && EncodeAll(run.frames) == out + EncodeAll(rest.frames)
        invariant !sock.IsOpen() ==> out == []
        decreases |data| - at
      {
        var f := WriteFrame(p, id, offset, data, at);
        NextFragment(p, id, offset, data, at);
        if f.Err? {
          return Some(f.error);
        }
        var next := at + |Chunk(p, data, at)|;
        ghost var rest := EncodeAll(WriteFrames(p, id, offset, data, next).frames);
        var ok := sock.SendAll(f.value.Encode());
        if !ok {
          StillCutShort(old(sock.sent), out, f.value.Encode(), rest, sock.sent);
          return Some(OsError);
        }
        StillWhole(old(sock.sent), out, f.value.Encode(), rest);
        out := out + f.value.Encode();
        at := next;
      }
      NoFragment(p, id, offset, data);
      error := None;
    }

    /** `write` */
    method Write(start: int, num: int, data: Bytes) returns (r: Result<()>)
      requires Valid()
      modifies this`opId, sock`pos, sock`sent
      ensures Valid()
      ensures var eff := Client.Write(Params(), old(opId), start, num, data, sock.inbox, old(sock.pos));
        && opId == eff.opId
        && if r == Err(OsError) then
             CutShort(old(sock.sent), sock.sent, eff.sent) && sock.pos == old(sock.pos)
           else
             && r == eff.result && sock.sent == old(sock.sent) + eff.sent && sock.pos == eff.pos
      ensures !sock.IsOpen() ==> sock.sent == old(sock.sent)
    {
      hide WriteFrames, Client.RecvReplyTo, EncodeAll;
      if num < 1 || |data| != num * sectorSize {
        return Err(ValueError);
      }
      var id := NextOpId();
      var error := SendFragments(id, start * sectorSize, data);
      if error.Some? {
        return Err(error.value);
      }
      var reply := RecvReplyTo(NFC_AIO_MSG_IO, id);
      r := if reply.Ok? then Ok(()) else Err(reply.error);
    }

    // ---------- close ----------

    /** `_aio_roundtrip` */
    method Roundtrip(msgType: nat, payload: Bytes, extra: Bytes, extraRecv: nat := 0)
      returns (r: Result<Bytes>)
      requires sock.Valid()
      modifies this`opId, sock`pos, sock`sent
      ensures sock.Valid()
      ensures var eff := Client.Roundtrip(msgType, payload, extra, old(opId), sock.inbox,
                                          old(sock.pos), extraRecv);
        && opId == eff.opId
        && if r == Err(OsError) then
             CutShort(old(sock.sent), sock.sent, eff.sent) && sock.pos == old(sock.pos)
           else
             r == eff.result && sock.sent == old(sock.sent) + eff.sent && sock.pos == eff.pos
    {
      var id := NextOpId();
      var hdr := PackAioHdr(msgType, |payload|, id);
      if hdr.None? {
        return Err(StructError);
      }
      var ok := sock.SendAll(hdr.value + payload + extra);
      if !ok {
        return Err(OsError);
      }
      r := RecvReplyTo(msgType, id);
      if r.Ok? && extraRecv > 0 {
        var more := sock.Recvn(extraRecv);
        r := if more.Ok? then Ok(r.value + more.value) else Err(more.error);
      }
    }

    /** The body of `close`'s try block. */
    method SayGoodbye() returns (r: Result<()>)
      requires sock.Valid()
      modifies this`opId, sock`pos, sock`sent
      ensures sock.Valid()
      ensures var eff := Client.Close(handle, old(opId), sock.inbox, old(sock.pos));
        if r == Err(OsError) then CutShort(old(sock.sent), sock.sent, eff.sent)
        else
          && r == eff.result && opId == eff.opId
          && sock.sent == old(sock.sent) + eff.sent && sock.pos == eff.pos
    {
      hide Client.Roundtrip, Pack, Le, Client.ClassicMsg, CutShort;
      var handleBytes := Pack([U64(handle)]);
      if handleBytes.None? {
        return Err(StructError);
      }
      ghost var before, s, pos0 := sock.sent, sock.inbox, sock.pos;
      ghost var e1 := Client.Roundtrip(NFC_AIO_MSG_CLOSE_FILE, handleBytes.value, [], opId, s, pos0);
      ghost var e2 := Client.Roundtrip(NFC_AIO_MSG_CLOSE_SESSION, Le(4, 0), [], e1.opId, s, e1.pos);
      ghost var e3 := Client.ClassicMsg(Client.NFC_MSG_SESSION_COMPLETE, []).value;
      var file := Roundtrip(NFC_AIO_MSG_CLOSE_FILE, handleBytes.value, []);
      if file.Err? {
        CutBefore(before, sock.sent, e1.sent, e2.sent);
        CutBefore(before, sock.sent, e1.sent, e2.sent + e3);
        assert e1.sent + e2.sent + e3 == e1.sent + (e2.sent + e3);
        return Err(file.error);
      }
      ghost var mid := sock.sent;
      var session := Roundtrip(NFC_AIO_MSG_CLOSE_SESSION, Le(4, 0), []);
      CutLater(before, mid, sock.sent, e1.sent, e2.sent);
      if session.Err? {
        CutBefore(before, sock.sent, e1.sent + e2.sent, e3);
        return Err(session.error);
      }
      ghost var late := sock.sent;
      var ok := sock.SendAll(Client.ClassicMsg(Client.NFC_MSG_SESSION_COMPLETE, []).value);
      CutIs(late, sock.sent, e3);
      CutLater(before, late, sock.sent, e1.sent + e2.sent, e3);
      r := if ok then Ok(()) else Err(OsError);
    }

    /** `close`: the farewell at most once over the life of the disk, and the socket closed
        whatever happens. */
    method Close() returns (r: Result<()>)
      requires sock.Valid()
      modifies this`closed, this`opId, sock`pos, sock`sent, sock.table
      ensures sock.Valid() && closed
      ensures old(closed) ==>
        && r == Ok(()) && opId == old(opId) && sock.sent == old(sock.sent)
        && sock.pos == old(sock.pos) && sock.table.open == old(sock.table.open)
      ensures !old(closed) ==>
        var eff := Client.Close(handle, old(opId), sock.inbox, old(sock.pos));
        && sock.table.open == old(sock.table.open) - {sock}
        && if r == Err(OsError) then CutShort(old(sock.sent), sock.sent, eff.sent)
           else
             && r == eff.result && opId == eff.opId
             && sock.sent == old(sock.sent) + eff.sent && sock.pos == eff.pos
    {
      if closed {
        return Ok(());
      }
      closed := true;
      r := SayGoodbye();
      sock.Close();
    }
  }

  /** `sendall` failed somewhere in `effect`: a prefix of it, and no more, went out. */
  ghost predicate CutShort(before: Bytes, after: Bytes, effect: Bytes) {
    effect != [] && before <= after <= before + effect
  }

  lemma {:induction false} RawDecodes(lib: FastLz.Library, p: Piece)
    ensures p.ctype == NFC_COMPRESSION_NONE && |p.extra| == p.chunkLen ==>
      Decoded(lib, p) == Some(p.extra)
  {
  }

  lemma {:induction false} CutBefore(before: Bytes, after: Bytes, effect: Bytes, more: Bytes)
    ensures CutShort(before, after, effect) ==> CutShort(before, after, effect + more)
  {
    assert before + (effect + more) == before + effect + more;
  }

  lemma {:induction false} CutLater(before: Bytes, mid: Bytes, after: Bytes, e1: Bytes, e2: Bytes)
    requires mid == before + e1
    ensures CutShort(mid, after, e2) ==> CutShort(before, after, e1 + e2)
    ensures mid + e2 == before + (e1 + e2)
  {
  }

  lemma {:induction false} CutIs(before: Bytes, after: Bytes, effect: Bytes)
    requires before <= after <= before + effect && effect != []
    ensures CutShort(before, after, effect)
  {
  }

  lemma {:induction false} NoFragment(p: Session, id: nat, offset: int, data: Bytes)
    requires p.bufferSize >= 1
    ensures var run := WriteFrames(p, id, offset, data, |data|);
      run.error == None && EncodeAll(run.frames) == []
  {
  }

  lemma {:induction false} NextFragment(p: Session, id: nat, offset: int, data: Bytes, at: nat)
    requires p.bufferSize >= 1 && at < |data|
    ensures var run := WriteFrames(p, id, offset, data, at);
      match WriteFrame(p, id, offset, data, at)
      case Err(e) => run == WriteRun([], Some(e)) && EncodeAll(run.frames) == []
      case Ok(f) =>
        var next := at + |Chunk(p, data, at)|;
        var rest := WriteFrames(p, id, offset, data, next);
        && at < next <= |data| && run.error == rest.error
        && EncodeAll(run.frames) == f.Encode() + EncodeAll(rest.frames)
  {
    hide WriteFrame, AioFrame.Encode;
    var f := WriteFrame(p, id, offset, data, at);
    if f.Ok? {
      var rest := WriteFrames(p, id, offset, data, at + |Chunk(p, data, at)|).frames;
      assert ([f.value] + rest)[1..] == rest;
    }
  }

  lemma {:induction false} StillCutShort(before: Bytes, out: Bytes, f: Bytes, rest: Bytes, after: Bytes)
    requires before + out <= after <= before + out + f && f != []
    ensures CutShort(before, after, out + (f + rest))
  {
    assert before + (out + (f + rest)) == before + out + f + rest;
  }

  lemma {:induction false} StillWhole(before: Bytes, out: Bytes, f: Bytes, rest: Bytes)
    ensures before + out + f == before + (out + f)
    ensures out + (f + rest) == out + f + rest
  {
  }

  lemma {:induction false} NoPieces(req: Request, before: Bytes)
    ensures Accepted(req, []) && Filled(req, before, []) == before
    ensures SumChunks([]) == 0 && SumExtras([]) == 0 && Table([]) == [] && Dests([]) == {}
  {
  }

  /** A refused fragment ends the run, with the buffer the step left. */
  lemma {:induction false} RefusalEnds(req: Request, s: Bytes, at: nat, acc: seq<Piece>,
                                       before: Bytes)
    requires at <= |s| && Accepted(req, acc) && SumChunks(acc) < req.length
    requires NextPiece(req, s, at, acc).Refused?
    ensures var step := NextPiece(req, s, at, acc);
      && Replies(req, s, at, acc) == Failed(step.error, step.pos, acc, step.at, step.partial)
      && BufferAfter(req, before, Replies(req, s, at, acc))
         == Splice(Filled(req, before, acc), step.at, step.partial)
  {
    hide NextPiece;
  }

  lemma {:induction false} NoReplyEnds(req: Request, s: Bytes, at: nat, acc: seq<Piece>,
                                       before: Bytes)
    requires at <= |s| && Accepted(req, acc) && SumChunks(acc) < req.length
    requires ReplyBody(s, at, req.opId).NoBody?
    ensures Replies(req, s, at, acc)
         == Failed(ProtocolError, ReplyBody(s, at, req.opId).pos, acc, 0, [])
    ensures BufferAfter(req, before, Replies(req, s, at, acc)) == Filled(req, before, acc)
  {
    hide ReplyBody;
    RefusalEnds(req, s, at, acc, before);
    SpliceNothing(Filled(req, before, acc), 0);
  }

  lemma {:induction false} BadBodyEnds(req: Request, s: Bytes, at: nat, acc: seq<Piece>,
                                       before: Bytes)
    requires at <= |s| && Accepted(req, acc) && SumChunks(acc) < req.length
    requires ReplyBody(s, at, req.opId).Body?
    requires CheckBody(ReplyBody(s, at, req.opId).bytes, req.length, Dests(acc)).Err?
    ensures var b := ReplyBody(s, at, req.opId);
      Replies(req, s, at, acc)
         == Failed(CheckBody(b.bytes, req.length, Dests(acc)).error, b.pos, acc, 0, [])
    ensures BufferAfter(req, before, Replies(req, s, at, acc)) == Filled(req, before, acc)
  {
    hide ReplyBody, CheckBody;
    RefusalEnds(req, s, at, acc, before);
    SpliceNothing(Filled(req, before, acc), 0);
  }

  lemma {:induction false} ExtraIsNext(req: Request, s: Bytes, at: nat, acc: seq<Piece>)
    requires at <= |s| && ReplyBody(s, at, req.opId).Body?
    requires CheckBody(ReplyBody(s, at, req.opId).bytes, req.length, Dests(acc)).Ok?
    ensures var b := ReplyBody(s, at, req.opId);
      var h := CheckBody(b.bytes, req.length, Dests(acc)).value;
      var step := NextPiece(req, s, at, acc);
      && step == TakeExtra(req, s, b.pos, SumExtras(acc), h)
      && (step.Took? ==>
            && step.piece.dest == h.dest && step.piece.chunkLen == h.chunkLen
            && step.piece.ctype == h.ctype && |step.piece.extra| == h.extraLen)
  {
    hide ReplyBody, CheckBody;
  }

  lemma {:induction false} EnoughEnds(req: Request, s: Bytes, at: nat, acc: seq<Piece>,
                                      before: Bytes)
    requires at <= |s| && Accepted(req, acc) && SumChunks(acc) >= req.length
    ensures Replies(req, s, at, acc) == Done(at, acc)
    ensures BufferAfter(req, before, Replies(req, s, at, acc)) == Filled(req, before, acc)
  {
  }

  /** One accepted piece: the run goes on from it, and the buffer is the next `Filled`. */
  lemma {:induction false} TakenPiece(req: Request, s: Bytes, at: nat, acc: seq<Piece>,
                                      before: Bytes, h: Shape, p: Piece, end: nat)
    requires at <= |s| && Accepted(req, acc) && req.length <= |before|
    requires SumChunks(acc) < req.length && NextPiece(req, s, at, acc) == Took(p, end)
    requires p.dest == h.dest && p.chunkLen == h.chunkLen && p.ctype == h.ctype
    requires |p.extra| == h.extraLen
    ensures Accepted(req, acc + [p]) && p.chunkLen >= 1
    ensures SumChunks(acc + [p]) == SumChunks(acc) + h.chunkLen
    ensures SumExtras(acc + [p]) == SumExtras(acc) + h.extraLen
    ensures Dests(acc + [p]) == Dests(acc) + {h.dest}
    ensures Table(acc + [p])
         == Table(acc) + [ReadFragment(h.dest, h.chunkLen, h.ctype, SumExtras(acc), h.extraLen)]
    ensures Replies(req, s, at, acc) == Replies(req, s, end, acc + [p])
    ensures Filled(req, before, acc + [p])
         == if req.skip then Splice(Filled(req, before, acc), SumExtras(acc), p.extra)
            else Splice(Filled(req, before, acc), p.dest, Decoded(req.lib, p).value)
  {
    hide NextPiece, Decoded, Splice, Accepted, Filled, Table;
    Snoc(acc, p);
    RepliesStep(req, s, at, acc, p, end);
    FilledSnoc(req, acc, before, p);
  }

  lemma {:induction false} FilledSnoc(req: Request, acc: seq<Piece>, before: Bytes, p: Piece)
    requires Accepted(req, acc) && Accepted(req, acc + [p]) && req.length <= |before|
    ensures Table(acc + [p])
         == Table(acc) + [ReadFragment(p.dest, p.chunkLen, p.ctype, SumExtras(acc), |p.extra|)]
    ensures !req.skip ==> Decoded(req.lib, p).Some?
    ensures Filled(req, before, acc + [p])
         == if req.skip then Splice(Filled(req, before, acc), SumExtras(acc), p.extra)
            else Splice(Filled(req, before, acc), p.dest, Decoded(req.lib, p).value)
  {
    hide Decoded, Splice, Accepted, Table, Assemble, Extras, SumExtras, SumChunks;
    AcceptedFacts(req, acc);
    AcceptedFacts(req, acc + [p]);
    Snoc(acc, p);
    TableSnoc(acc, p);
    if req.skip {
      ExtrasSnoc(acc, p);
      SpliceTwice(before, 0, Extras(acc), p.extra);
    } else {
      AssembleSnoc(req.lib, before, acc, p);
    }
  }

  lemma {:induction false} LastOf(acc: seq<Piece>, p: Piece)
    ensures Init(acc + [p]) == acc && Last(acc + [p]) == p && (acc + [p])[|acc|] == p
  {
  }

  lemma {:induction false} TableSnoc(acc: seq<Piece>, p: Piece)
    ensures Table(acc + [p])
         == Table(acc) + [ReadFragment(p.dest, p.chunkLen, p.ctype, SumExtras(acc), |p.extra|)]
  {
    LastOf(acc, p);
  }

  lemma {:induction false} ExtrasSnoc(acc: seq<Piece>, p: Piece)
    ensures Extras(acc + [p]) == Extras(acc) + p.extra
  {
    LastOf(acc, p);
  }

  lemma {:induction false} AssembleSnoc(lib: FastLz.Library, before: Bytes, acc: seq<Piece>, p: Piece)
    requires AllDecode(lib, acc) && AllDecode(lib, acc + [p])
    ensures Decoded(lib, p).Some?
    ensures Assemble(lib, before, acc + [p])
         == Splice(Assemble(lib, before, acc), p.dest, Decoded(lib, p).value)
  {
    hide Decoded, Splice;
    LastOf(acc, p);
  }

  /** What an attempt to take an extra did is what the step says. */
  ghost predicate Agrees(req: Request, packed: nat, step: Step, error: Option<Error>, pos: nat,
                         before: Bytes, after: Bytes) {
    match step
    case Took(p, end) =>
      && error == None && pos == end
      && (req.skip || Decoded(req.lib, p).Some?)
      && after == (if req.skip then Splice(before, packed, p.extra)
                   else Splice(before, p.dest, Decoded(req.lib, p).value))
    case Refused(e, end, at, partial) =>
      error == Some(e) && pos == end && after == Splice(before, at, partial)
  }
}
