/** What `NfcDisk.readinto` makes of the peer's byte stream, as a function of that stream
    alone; that it accepts exactly the streams made of whole reply frames; and what any
    accepted run, from any peer, has put into the caller's buffer. */
module Reading {
  import opened Wire
  import opened Frames
  import opened Pieces

  /** One read after its request has been sent. */
  datatype Request = Request(lib: FastLz.Library, opId: nat, length: nat, skip: bool)

  // ---------- one reply fragment ----------

  datatype Shape = Shape(dest: nat, chunkLen: nat, ctype: nat, extraLen: nat)

  /** `_aio_extra_len`. A body of 36 to 39 bytes that announces FastLZ has no size field to
      unpack. */
  function AioExtraLen(ctype: nat, body: Bytes, chunkLen: nat): Result<nat> {
    if ctype == NFC_COMPRESSION_FASTLZ then
      if |body| < 40 then Err(StructError)
      else if GetU32(body, 36) < 1 then Err(ProtocolError)
      else Ok(GetU32(body, 36))
    else if ctype == NFC_COMPRESSION_NONE then Ok(chunkLen)
    else Err(ProtocolError)
  }

  function CheckBody(body: Bytes, length: nat, seen: set<nat>): (r: Result<Shape>)
    ensures r.Ok? ==>
      var h := r.value;
      && h.dest !in seen && 1 <= h.chunkLen < U32_BOUND && h.dest + h.chunkLen <= length
      && h.extraLen >= 1
      && (h.ctype == NFC_COMPRESSION_FASTLZ
          || (h.ctype == NFC_COMPRESSION_NONE && h.extraLen == h.chunkLen))
  {
    if |body| < 36 then Err(ProtocolError)
    else
      var dest, chunkLen := GetU32(body, 28), GetU32(body, 32);
      if dest in seen || chunkLen == 0 || dest + chunkLen > length then Err(ProtocolError)
      else
        var ctype := GetU64(body, 8) / U32_BOUND;
        match AioExtraLen(ctype, body, chunkLen)
        case Err(e) => Err(e)
        case Ok(n) => Ok(Shape(dest, chunkLen, ctype, n))
  }

  /** `Took`: the fragment is accepted and the stream is at `pos`. `Refused`: the call raises
      with the stream at `pos`, after `partial` bytes of extra went to the buffer at `at`. */
  datatype Step =
    | Took(piece: Piece, pos: nat)
    | Refused(error: Error, pos: nat, at: nat, partial: Bytes)

  /** `s[pos..]` starts with a reply header that belongs to `opId`, and its payload. */
  datatype Body = Body(bytes: Bytes, pos: nat) | NoBody(pos: nat)

  function ReplyBody(s: Bytes, pos: nat, opId: nat): (r: Body)
    requires pos <= |s|
    ensures pos <= r.pos <= |s|
  {
    if pos + 16 > |s| then NoBody(|s|)
    else match UnpackAioHdr(s[pos..pos + 16])
         case Err(_) => NoBody(pos + 16)
         case Ok(h) =>
           if h.msgType != NFC_AIO_MSG_IO || h.opId != opId then NoBody(pos + 16)
           else if pos + 16 + h.size > |s| then NoBody(|s|)
           else Body(s[pos + 16..pos + 16 + h.size], pos + 16 + h.size)
  }

  /** The extra of an accepted header and payload. */
  function TakeExtra(req: Request, s: Bytes, pos: nat, packed: nat, h: Shape): (r: Step)
    requires pos <= |s|
    ensures pos <= r.pos <= |s|
  {
    var end := pos + h.extraLen;
    if req.skip && packed + h.extraLen > req.length then Refused(ProtocolError, pos, 0, [])
    else if end > |s| then
      if req.skip then Refused(ProtocolError, |s|, packed, s[pos..])
      else if h.ctype == NFC_COMPRESSION_NONE then Refused(ProtocolError, |s|, h.dest, s[pos..])
      else Refused(ProtocolError, |s|, 0, [])
    else
      var p := Piece(h.dest, h.chunkLen, h.ctype, s[pos..end]);
      if req.skip || Decoded(req.lib, p).Some? then Took(p, end)
      else Refused(DecodeError(req.lib, p), end, 0, [])
  }

  /** `readinto` turns fastlz's ValueError and a wrong length into a protocol error; a
      `struct.error` from packing the length prefix would pass through. */
  function DecodeError(lib: FastLz.Library, p: Piece): Error {
    var r := FastLz.Decompress(lib, p.extra, p.chunkLen);
    if r.Err? && r.error != ValueError then r.error else ProtocolError
  }

  function NextPiece(req: Request, s: Bytes, pos: nat, acc: seq<Piece>): (r: Step)
    requires pos <= |s|
    ensures pos <= r.pos <= |s|
    ensures r.Took? ==> PieceOk(req, r.piece) && r.piece.dest !in Dests(acc)
    ensures r.Took? && req.skip ==> SumExtras(acc) + |r.piece.extra| <= req.length
    ensures r.Refused? ==> r.at + |r.partial| <= req.length && r.error != OsError
  {
    match ReplyBody(s, pos, req.opId)
    case NoBody(p) => Refused(ProtocolError, p, 0, [])
    case Body(body, p) =>
      match CheckBody(body, req.length, Dests(acc))
      case Err(e) => Refused(e, p, 0, [])
      case Ok(h) => TakeExtra(req, s, p, SumExtras(acc), h)
  }

  // ---------- a whole reply ----------

  predicate PieceOk(req: Request, p: Piece) {
    && p.chunkLen >= 1 && p.dest + p.chunkLen <= req.length && |p.extra| >= 1
    && (p.ctype == 2 || (p.ctype == 0 && |p.extra| == p.chunkLen))
    && (!req.skip ==> Decoded(req.lib, p).Some?)
  }

  /** What `readinto` knows of the fragments it has accepted. */
  predicate Accepted(req: Request, acc: seq<Piece>) {
    if acc == [] then true
    else
      && Accepted(req, Init(acc)) && PieceOk(req, Last(acc)) && Last(acc).dest !in Dests(Init(acc))
      && (req.skip ==> SumExtras(acc) <= req.length)
  }

  lemma {:induction false} AcceptedFacts(req: Request, acc: seq<Piece>)
    requires Accepted(req, acc)
    ensures forall k :: 0 <= k < |acc| ==> PieceOk(req, acc[k])
    ensures Within(acc, req.length)
    ensures !req.skip ==> AllDecode(req.lib, acc)
    ensures req.skip ==> SumExtras(acc) <= req.length
  {
    if acc != [] {
      AcceptedFacts(req, Init(acc));
      forall k | 0 <= k < |acc|
        ensures PieceOk(req, acc[k])
      {
        assert acc[k] == if k < |acc| - 1 then Init(acc)[k] else Last(acc);
      }
    }
  }

  datatype Run =
    | Done(pos: nat, acc: seq<Piece>)
    | Failed(error: Error, pos: nat, acc: seq<Piece>, at: nat, partial: Bytes)

  lemma {:induction false} AcceptedSnoc(req: Request, acc: seq<Piece>, p: Piece)
    requires Accepted(req, acc) && PieceOk(req, p) && p.dest !in Dests(acc)
    requires req.skip ==> SumExtras(acc) + |p.extra| <= req.length
    ensures Accepted(req, acc + [p])
  {
    Snoc(acc, p);
    assert Init(acc + [p]) == acc;
  }

  /** The loop of `readinto`: fragments until their uncompressed lengths add up to the
      request. */
  function Replies(req: Request, s: Bytes, pos: nat, acc: seq<Piece>): (r: Run)
    requires pos <= |s| && Accepted(req, acc)
    ensures pos <= r.pos <= |s| && Accepted(req, r.acc) && acc <= r.acc
    ensures r.Done? ==> SumChunks(r.acc) >= req.length
    ensures r.Failed? ==> SumChunks(r.acc) < req.length && r.at + |r.partial| <= req.length
    ensures r.Failed? ==> r.error != OsError
    decreases req.length - SumChunks(acc)
  {
    if SumChunks(acc) >= req.length then Done(pos, acc)
    else match NextPiece(req, s, pos, acc)
         case Refused(e, p, at, partial) => Failed(e, p, acc, at, partial)
         case Took(piece, p) =>
           Snoc(acc, piece);
           AcceptedSnoc(req, acc, piece);
           Replies(req, s, p, acc + [piece])
  }

  /** The caller's buffer after the accepted fragments. */
  function Filled(req: Request, buf: Bytes, acc: seq<Piece>): Bytes
    requires Accepted(req, acc)
  {
    AcceptedFacts(req, acc);
    if req.skip then Splice(buf, 0, Extras(acc)) else Assemble(req.lib, buf, acc)
  }

  function BufferAfter(req: Request, buf: Bytes, run: Run): Bytes
    requires Accepted(req, run.acc)
  {
    var b := Filled(req, buf, run.acc);
    if run.Done? then b else Splice(b, run.at, run.partial)
  }

  // ---------- any peer at all ----------

  lemma {:induction false} ChunksCount(ps: seq<Piece>)
    requires forall k :: 0 <= k < |ps| ==> ps[k].chunkLen >= 1
    ensures SumChunks(ps) >= |ps|
  {
    if ps != [] {
      ChunksCount(Init(ps));
    }
  }

  /** Whatever the peer sends, only the first `length` bytes of the buffer are written. */
  lemma {:induction false} WritesStayInside(req: Request, s: Bytes, pos: nat, buf: Bytes)
    requires pos <= |s| && req.length <= |buf|
    ensures var b := BufferAfter(req, buf, Replies(req, s, pos, []));
      |b| == |buf| && b[req.length..] == buf[req.length..]
  {
    var run := Replies(req, s, pos, []);
    AcceptedFacts(req, run.acc);
    if !req.skip {
      AssembleFrame(req.lib, buf, run.acc, req.length);
    }
    var f := Filled(req, buf, run.acc);
    if req.skip {
      SpliceBelow(buf, 0, Extras(run.acc), req.length);
    }
    if run.Failed? {
      SpliceBelow(f, run.at, run.partial, req.length);
    }
  }

  /** Whatever the peer sends, at most `length` fragments are accepted, and without overlaps
      the count of received bytes never passes the request. */
  lemma {:induction false} AcceptsAtMostLength(req: Request, s: Bytes, pos: nat, acc: seq<Piece>)
    requires pos <= |s| && Accepted(req, acc) && |acc| <= req.length
    ensures var r := Replies(req, s, pos, acc);
      |r.acc| <= req.length && (Disjoint(r.acc) ==> SumChunks(r.acc) <= req.length)
    decreases req.length - SumChunks(acc)
  {
    hide NextPiece;
    AcceptedFacts(req, acc);
    ChunksCount(acc);
    CountingIsCoverage(acc, req.length);
    if SumChunks(acc) < req.length {
      match NextPiece(req, s, pos, acc) {
        case Refused(_, _, _, _) =>
        case Took(piece, p) =>
          Snoc(acc, piece);
          AcceptedSnoc(req, acc, piece);
          AcceptsAtMostLength(req, s, p, acc + [piece]);
      }
    }
  }

  /** When a read returns, whoever the peer is: its fragments cover the request exactly when
      their edges leave no gap, and always when none overlap. */
  lemma {:induction false} CompletionIsCoverage(req: Request, s: Bytes, pos: nat)
    requires pos <= |s| && Replies(req, s, pos, []).Done?
    ensures var acc := Replies(req, s, pos, []).acc;
      && (Covered(acc) == Span(0, req.length) <==> NoGap(acc, req.length))
      && (Disjoint(acc) ==> NoGap(acc, req.length))
  {
    var acc := Replies(req, s, pos, []).acc;
    AcceptedFacts(req, acc);
    CountingIsCoverage(acc, req.length);
    CoverageIsNoGap(acc, req.length);
  }

  /** And they cover each byte once, the count exact, exactly when none overlap. */
  lemma {:induction false} CompletionIsExact(req: Request, s: Bytes, pos: nat)
    requires pos <= |s| && Replies(req, s, pos, []).Done?
    ensures var acc := Replies(req, s, pos, []).acc;
      Disjoint(acc) <==> SumChunks(acc) == req.length && Covered(acc) == Span(0, req.length)
  {
    AcceptedFacts(req, Replies(req, s, pos, []).acc);
    CountingIsCoverage(Replies(req, s, pos, []).acc, req.length);
  }

  /** Then every byte of the request is the byte its one fragment carried. */
  lemma {:induction false} CompletionDelivers(req: Request, s: Bytes, pos: nat, buf: Bytes, k: nat)
    requires pos <= |s| && req.length <= |buf|
    ensures var run := Replies(req, s, pos, []);
      run.Done? && !req.skip && Disjoint(run.acc) && k < |run.acc| ==>
        Holds(req.lib, BufferAfter(req, buf, run), run.acc[k])
  {
    hide Holds;
    var run := Replies(req, s, pos, []);
    AcceptedFacts(req, run.acc);
    if run.Done? && !req.skip && Disjoint(run.acc) && k < |run.acc| {
      AssembleDisjoint(req.lib, buf, run.acc, req.length, k);
    }
  }

  // ---------- accepted streams are frame streams ----------

  /** A well-formed IO reply fragment for operation `opId`. */
  predicate IsReply(opId: nat, f: AioFrame) {
    && f.Sendable() && f.msgType == 7 && f.opId == opId && |f.payload| >= 36
    && AioExtraLen(GetU64(f.payload, 8) / U32_BOUND, f.payload, GetU32(f.payload, 32))
       == Ok(|f.extra|)
  }

  /** The piece a reply frame carries; its payload is long enough for the fields. */
  function ToPiece(f: AioFrame): Piece {
    if |f.payload| < 36 then Piece(0, 0, 0, f.extra)
    else Piece(GetU32(f.payload, 28), GetU32(f.payload, 32), GetU64(f.payload, 8) / U32_BOUND, f.extra)
  }

  predicate Acceptable(req: Request, acc: seq<Piece>, f: AioFrame) {
    && IsReply(req.opId, f) && PieceOk(req, ToPiece(f)) && ToPiece(f).dest !in Dests(acc)
    && (req.skip ==> SumExtras(acc) + |f.extra| <= req.length)
  }

  /** The header, payload and extra of a frame, where it stands in a stream. */
  lemma {:induction false} FrameInStream(s: Bytes, pos: nat, f: AioFrame)
    requires pos <= |s| && f.Sendable()
    requires pos + f.Size() <= |s| && s[pos..pos + f.Size()] == f.Encode()
    ensures ReadHdr(s[pos..pos + 16]) == Ok(AioHdr(f.msgType, |f.payload|, f.opId))
    ensures s[pos + 16..pos + 16 + |f.payload|] == f.payload
    ensures s[pos + 16 + |f.payload|..pos + f.Size()] == f.extra
  {
    var e, n := f.Encode(), 16 + |f.payload|;
    assert e + [] == e;
    EncodeParts(f, []);
    SliceOfSlice(s, pos, e, 0, 16);
    SliceOfSlice(s, pos, e, 16, n);
    SliceOfSlice(s, pos, e, n, |e|);
    HdrRoundTrip(f.msgType, |f.payload|, f.opId, []);
    var h := PackAioHdr(f.msgType, |f.payload|, f.opId).value;
    assert h + [] == h == e[..16];
  }

  lemma {:induction false} BodyOfFrame(s: Bytes, pos: nat, f: AioFrame)
    requires pos <= |s| && f.Sendable() && f.msgType == NFC_AIO_MSG_IO
    requires pos + f.Size() <= |s| && s[pos..pos + f.Size()] == f.Encode()
    ensures ReplyBody(s, pos, f.opId) == Body(f.payload, pos + 16 + |f.payload|)
    ensures s[pos + 16 + |f.payload|..pos + f.Size()] == f.extra
  {
    hide ReadHdr, AioFrame.Encode, GetU32;
    FrameInStream(s, pos, f);
  }

  lemma {:induction false} FrameOfBody(s: Bytes, pos: nat, opId: nat)
    requires pos <= |s| && ReplyBody(s, pos, opId).Body?
    ensures var b := ReplyBody(s, pos, opId);
      && PackAioHdr(NFC_AIO_MSG_IO, |b.bytes|, opId).Some? && b.pos == pos + 16 + |b.bytes|
      && s[pos..b.pos] == PackAioHdr(NFC_AIO_MSG_IO, |b.bytes|, opId).value + b.bytes
  {
    var hdr := s[pos..pos + 16];
    HdrIsPacked(hdr);
    assert hdr[..16] == hdr;
    var b := ReplyBody(s, pos, opId);
    assert s[pos..b.pos] == hdr + b.bytes;
  }

  lemma {:induction false} TakeFrame(req: Request, s: Bytes, pos: nat, acc: seq<Piece>, f: AioFrame)
    requires pos <= |s| && Acceptable(req, acc, f)
    requires pos + f.Size() <= |s| && s[pos..pos + f.Size()] == f.Encode()
    ensures NextPiece(req, s, pos, acc) == Took(ToPiece(f), pos + f.Size())
  {
    hide ReplyBody, GetU32, GetU64, AioFrame.Encode, Decoded;
    BodyOfFrame(s, pos, f);
    var p := ToPiece(f);
    assert CheckBody(f.payload, req.length, Dests(acc))
        == Ok(Shape(p.dest, p.chunkLen, p.ctype, |f.extra|));
  }

  lemma {:induction false} TookIsFrame(req: Request, s: Bytes, pos: nat, acc: seq<Piece>) returns (f: AioFrame)
    requires pos <= |s| && NextPiece(req, s, pos, acc).Took?
    ensures Acceptable(req, acc, f) && NextPiece(req, s, pos, acc).piece == ToPiece(f)
    ensures NextPiece(req, s, pos, acc).pos == pos + f.Size() <= |s|
    ensures s[pos..pos + f.Size()] == f.Encode()
  {
    hide ReplyBody, GetU32, GetU64, Decoded;
    var b := ReplyBody(s, pos, req.opId);
    var r := NextPiece(req, s, pos, acc);
    FrameOfBody(s, pos, req.opId);
    f := AioFrame(NFC_AIO_MSG_IO, req.opId, b.bytes, r.piece.extra);
    assert s[pos..r.pos] == s[pos..b.pos] + s[b.pos..r.pos];
  }

  /** One turn of the loop. */
  lemma {:induction false} RepliesStep(req: Request, s: Bytes, pos: nat, acc: seq<Piece>, p: Piece, mid: nat)
    requires pos <= |s| && Accepted(req, acc) && SumChunks(acc) < req.length
    requires NextPiece(req, s, pos, acc) == Took(p, mid)
    ensures Accepted(req, acc + [p]) && SumChunks(acc + [p]) == SumChunks(acc) + p.chunkLen
    ensures p.chunkLen >= 1 && mid <= |s|
    ensures Replies(req, s, pos, acc) == Replies(req, s, mid, acc + [p])
  {
    Snoc(acc, p);
    AcceptedSnoc(req, acc, p);
  }

  /** Frame by frame, a reply that is accepted and complete. */
  ghost predicate AcceptableRun(req: Request, acc: seq<Piece>, fs: seq<AioFrame>)
    decreases |fs|
  {
    if fs == [] then SumChunks(acc) >= req.length
    else
      && SumChunks(acc) < req.length && Acceptable(req, acc, fs[0])
      && AcceptableRun(req, acc + [ToPiece(fs[0])], fs[1..])
  }

  function PiecesIn(fs: seq<AioFrame>): (ps: seq<Piece>)
    ensures |ps| == |fs|
  {
    if fs == [] then [] else [ToPiece(fs[0])] + PiecesIn(fs[1..])
  }

  lemma {:induction false} PieceAt(fs: seq<AioFrame>, k: nat)
    requires k < |fs|
    ensures PiecesIn(fs)[k] == ToPiece(fs[k])
  {
    if k > 0 {
      PieceAt(fs[1..], k - 1);
    }
  }

  lemma {:induction false} RunIsReplies(req: Request, acc: seq<Piece>, fs: seq<AioFrame>)
    requires AcceptableRun(req, acc, fs)
    ensures AllSendable(fs)
    ensures forall k :: 0 <= k < |fs| ==> IsReply(req.opId, fs[k])
    decreases |fs|
  {
    if fs != [] {
      RunIsReplies(req, acc + [ToPiece(fs[0])], fs[1..]);
      forall k | 0 <= k < |fs|
        ensures IsReply(req.opId, fs[k])
      {
        assert k > 0 ==> fs[k] == fs[1..][k - 1];
      }
    }
  }

  lemma {:induction false} ConcatAssoc<T>(a: seq<T>, b: seq<T>, c: seq<T>)
    ensures a + b + c == a + (b + c)
  {
  }

  lemma {:induction false} JoinAt(s: Bytes, pos: nat, mid: nat, end: nat)
    requires pos <= mid <= end <= |s|
    ensures s[pos..end] == s[pos..mid] + s[mid..end]
  {
  }

  lemma {:induction false} SplitAt(s: Bytes, pos: nat, e: Bytes, rest: Bytes, mid: nat, end: nat)
    requires mid == pos + |e| && end == mid + |rest| <= |s| && s[pos..end] == e + rest
    ensures s[pos..mid] == e && s[mid..end] == rest
  {
    SliceOfSlice(s, pos, e + rest, 0, |e|);
    SliceOfSlice(s, pos, e + rest, |e|, |e + rest|);
  }

  /** A stream that starts with an acceptable reply is read to that reply's last byte. */
  lemma {:induction false} RepliesOfFrames(req: Request, s: Bytes, pos: nat, end: nat,
                                           acc: seq<Piece>, fs: seq<AioFrame>)
    requires Accepted(req, acc) && AcceptableRun(req, acc, fs) && AllSendable(fs)
    requires pos <= end <= |s| && s[pos..end] == EncodeAll(fs)
    ensures Replies(req, s, pos, acc) == Done(end, acc + PiecesIn(fs))
    decreases |fs|
  {
    hide NextPiece, Acceptable, Accepted, AioFrame.Encode, ToPiece;
    if fs == [] {
      assert acc + PiecesIn(fs) == acc;
    } else {
      var f, p, rest := fs[0], ToPiece(fs[0]), EncodeAll(fs[1..]);
      var mid := pos + f.Size();
      assert end == mid + |rest|;
      SplitAt(s, pos, f.Encode(), rest, mid, end);
      TakeFrame(req, s, pos, acc, f);
      RepliesStep(req, s, pos, acc, p, mid);
      RepliesOfFrames(req, s, mid, end, acc + [p], fs[1..]);
      ConcatAssoc(acc, [p], PiecesIn(fs[1..]));
    }
  }

  /** And a completed read consumed exactly such a reply: it ends on a frame boundary. */
  lemma {:induction false} FramesOfReplies(req: Request, s: Bytes, pos: nat, acc: seq<Piece>,
                                           end: nat, all: seq<Piece>)
    returns (fs: seq<AioFrame>)
    requires pos <= |s| && Accepted(req, acc) && Replies(req, s, pos, acc) == Done(end, all)
    ensures pos <= end <= |s| && AcceptableRun(req, acc, fs) && AllSendable(fs)
    ensures s[pos..end] == EncodeAll(fs) && all == acc + PiecesIn(fs)
    decreases req.length - SumChunks(acc)
  {
    if SumChunks(acc) >= req.length {
      fs := [];
      assert acc == acc + PiecesIn(fs);
    } else {
      var f, mid := FirstReply(req, s, pos, acc);
      var tail := FramesOfReplies(req, s, mid, acc + [ToPiece(f)], end, all);
      fs := Prepend(req, acc, f, tail, s, pos, mid, end, all);
    }
  }

  /** An accepted fragment is the next frame of the stream, and the run goes on behind it. */
  lemma {:induction false} FirstReply(req: Request, s: Bytes, pos: nat, acc: seq<Piece>)
    returns (f: AioFrame, mid: nat)
    requires pos <= |s| && Accepted(req, acc) && SumChunks(acc) < req.length
    requires NextPiece(req, s, pos, acc).Took?
    ensures Acceptable(req, acc, f) && pos <= mid <= |s| && s[pos..mid] == f.Encode()
    ensures Accepted(req, acc + [ToPiece(f)])
    ensures SumChunks(acc + [ToPiece(f)]) > SumChunks(acc)
    ensures Replies(req, s, pos, acc) == Replies(req, s, mid, acc + [ToPiece(f)])
  {
    hide *;
    f := TookIsFrame(req, s, pos, acc);
    mid := pos + f.Size();
    RepliesStep(req, s, pos, acc, ToPiece(f), mid);
  }

  lemma {:induction false} Prepend(req: Request, acc: seq<Piece>, f: AioFrame, tail: seq<AioFrame>,
                s: Bytes, pos: nat, mid: nat, end: nat, all: seq<Piece>)
    returns (fs: seq<AioFrame>)
    requires SumChunks(acc) < req.length && Acceptable(req, acc, f)
    requires AcceptableRun(req, acc + [ToPiece(f)], tail) && AllSendable(tail)
    requires pos <= mid <= end <= |s| && s[pos..mid] == f.Encode() && s[mid..end] == EncodeAll(tail)
    requires all == acc + [ToPiece(f)] + PiecesIn(tail)
    ensures AcceptableRun(req, acc, fs) && AllSendable(fs)
    ensures s[pos..end] == EncodeAll(fs)
    ensures all == acc + PiecesIn(fs)
  {
    fs := [f] + tail;
    assert fs[1..] == tail;
    RunIsReplies(req, acc, fs);
    JoinAt(s, pos, mid, end);
    ConcatAssoc(acc, [ToPiece(f)], PiecesIn(tail));
  }

  /** A read returns exactly on the streams that begin with an acceptable reply, having
      taken that reply and nothing after it. */
  lemma {:induction false} DoneIsFrameStream(req: Request, s: Bytes, pos: nat, end: nat, all: seq<Piece>)
    requires pos <= |s|
    ensures Replies(req, s, pos, []) == Done(end, all) <==>
      pos <= end <= |s| && exists fs ::
        AcceptableRun(req, [], fs) && AllSendable(fs) && s[pos..end] == EncodeAll(fs)
        && all == PiecesIn(fs)
  {
    hide Replies, AcceptableRun, EncodeAll;
    if Replies(req, s, pos, []) == Done(end, all) {
      var fs := FramesOfReplies(req, s, pos, [], end, all);
      assert [] + PiecesIn(fs) == PiecesIn(fs);
    }
    if pos <= end <= |s| {
      forall fs | AcceptableRun(req, [], fs) && AllSendable(fs) && s[pos..end] == EncodeAll(fs)
        && all == PiecesIn(fs)
        ensures Replies(req, s, pos, []) == Done(end, all)
      {
        RepliesOfFrames(req, s, pos, end, [], fs);
        assert [] + PiecesIn(fs) == PiecesIn(fs);
      }
    }
  }

  // ---------- and refused streams are frame streams up to the refusal ----------

  /** Frame by frame, a reply that is accepted and not complete. */
  ghost predicate AcceptablePart(req: Request, acc: seq<Piece>, fs: seq<AioFrame>)
    decreases |fs|
  {
    && SumChunks(acc) < req.length
    && (fs == [] || (Acceptable(req, acc, fs[0])
                     && AcceptablePart(req, acc + [ToPiece(fs[0])], fs[1..])))
  }

  lemma {:induction false} PartIsRead(req: Request, s: Bytes, pos: nat, at: nat, acc: seq<Piece>,
                                      fs: seq<AioFrame>)
    requires Accepted(req, acc) && AcceptablePart(req, acc, fs) && AllSendable(fs)
    requires pos <= at <= |s| && s[pos..at] == EncodeAll(fs)
    ensures Accepted(req, acc + PiecesIn(fs)) && SumChunks(acc + PiecesIn(fs)) < req.length
    ensures Replies(req, s, pos, acc) == Replies(req, s, at, acc + PiecesIn(fs))
    decreases |fs|
  {
    hide NextPiece, Acceptable, Accepted, AioFrame.Encode, ToPiece, Replies;
    if fs == [] {
      assert acc + PiecesIn(fs) == acc;
    } else {
      var f, p, rest := fs[0], ToPiece(fs[0]), EncodeAll(fs[1..]);
      var mid := pos + f.Size();
      assert at == mid + |rest|;
      SplitAt(s, pos, f.Encode(), rest, mid, at);
      TakeFrame(req, s, pos, acc, f);
      RepliesStep(req, s, pos, acc, p, mid);
      PartIsRead(req, s, mid, at, acc + [p], fs[1..]);
      ConcatAssoc(acc, [p], PiecesIn(fs[1..]));
    }
  }

  lemma {:induction false} PartOfFailed(req: Request, s: Bytes, pos: nat, acc: seq<Piece>)
    returns (fs: seq<AioFrame>, at: nat)
    requires pos <= |s| && Accepted(req, acc) && Replies(req, s, pos, acc).Failed?
    ensures pos <= at <= |s| && AcceptablePart(req, acc, fs) && AllSendable(fs)
    ensures s[pos..at] == EncodeAll(fs)
    ensures var run := Replies(req, s, pos, acc);
      && run.acc == acc + PiecesIn(fs)
      && NextPiece(req, s, at, run.acc) == Refused(run.error, run.pos, run.at, run.partial)
    decreases req.length - SumChunks(acc)
  {
    if NextPiece(req, s, pos, acc).Refused? {
      fs, at := [], pos;
      assert acc == acc + PiecesIn(fs);
    } else {
      var f, mid := FirstReply(req, s, pos, acc);
      var tail;
      tail, at := PartOfFailed(req, s, mid, acc + [ToPiece(f)]);
      hide *;
      fs := PrependPart(req, acc, f, tail, s, pos, mid, at);
    }
  }

  lemma {:induction false} PrependPart(req: Request, acc: seq<Piece>, f: AioFrame, tail: seq<AioFrame>,
                                       s: Bytes, pos: nat, mid: nat, at: nat)
    returns (fs: seq<AioFrame>)
    requires SumChunks(acc) < req.length && Acceptable(req, acc, f)
    requires AcceptablePart(req, acc + [ToPiece(f)], tail) && AllSendable(tail)
    requires pos <= mid <= at <= |s| && s[pos..mid] == f.Encode() && s[mid..at] == EncodeAll(tail)
    ensures AcceptablePart(req, acc, fs) && AllSendable(fs) && s[pos..at] == EncodeAll(fs)
    ensures acc + PiecesIn(fs) == acc + [ToPiece(f)] + PiecesIn(tail)
  {
    fs := [f] + tail;
    assert fs[1..] == tail;
    JoinAt(s, pos, mid, at);
    ConcatAssoc(acc, [ToPiece(f)], PiecesIn(tail));
  }

  /** A read raises exactly on the streams that begin with an acceptable part of a reply
      followed by a fragment that is refused: with that refusal's error and position, and with
      the fragments before it accepted. */
  lemma {:induction false} FailedIsPartThenRefusal(req: Request, s: Bytes, pos: nat, e: Error, end: nat,
                                                   acc: seq<Piece>, to: nat, partial: Bytes)
    requires pos <= |s|
    ensures Replies(req, s, pos, []) == Failed(e, end, acc, to, partial) <==>
      exists fs, at ::
        && pos <= at <= |s| && AcceptablePart(req, [], fs) && AllSendable(fs)
        && s[pos..at] == EncodeAll(fs) && acc == PiecesIn(fs)
        && NextPiece(req, s, at, acc) == Refused(e, end, to, partial)
  {
    hide AcceptablePart, EncodeAll, NextPiece;
    if Replies(req, s, pos, []) == Failed(e, end, acc, to, partial) {
      var fs, at := PartOfFailed(req, s, pos, []);
      assert [] + PiecesIn(fs) == PiecesIn(fs);
    }
    forall fs, at: nat | pos <= at <= |s| && AcceptablePart(req, [], fs) && AllSendable(fs)
      && s[pos..at] == EncodeAll(fs) && acc == PiecesIn(fs)
      && NextPiece(req, s, at, acc) == Refused(e, end, to, partial)
      ensures Replies(req, s, pos, []) == Failed(e, end, acc, to, partial)
    {
      PartIsRead(req, s, pos, at, [], fs);
      assert [] + PiecesIn(fs) == PiecesIn(fs);
    }
  }

  // ---------- the one exception that is not a protocol error ----------

  /** A payload that passes every check up to its compression type, announces FastLZ, and ends
      before the field with the compressed size. */
  predicate ShortFastLz(body: Bytes, length: nat, seen: set<nat>) {
    && 36 <= |body| < 40 && GetU64(body, 8) / U32_BOUND == 2
    && GetU32(body, 28) !in seen && 1 <= GetU32(body, 32)
    && GetU32(body, 28) + GetU32(body, 32) <= length
  }

  /** The next fragment of the stream has such a payload. */
  predicate ShortFastLzAt(req: Request, s: Bytes, at: nat, acc: seq<Piece>)
    requires at <= |s|
  {
    var b := ReplyBody(s, at, req.opId);
    b.Body? && ShortFastLz(b.bytes, req.length, Dests(acc))
  }

  /** Every refusal is a protocol error except that of such a payload, which is a
      `struct.error`: decompression can not raise one, as a length read off the wire fits the
      prefix it is packed into. */
  lemma {:induction false} RefusalError(req: Request, s: Bytes, pos: nat, acc: seq<Piece>)
    requires pos <= |s|
    ensures var step := NextPiece(req, s, pos, acc);
      && (step.Refused? && step.error == StructError <==> ShortFastLzAt(req, s, pos, acc))
      && (step.Refused? && step.error != StructError ==> step.error == ProtocolError)
  {
    hide ReplyBody, GetU32, GetU64, Dests;
  }

  /** An acceptable part of a reply stands at `pos`, and such a payload after it. */
  ghost predicate ShortFastLzAhead(req: Request, s: Bytes, pos: nat)
    requires pos <= |s|
  {
    exists fs, at ::
      && pos <= at <= |s| && AcceptablePart(req, [], fs) && AllSendable(fs)
      && s[pos..at] == EncodeAll(fs) && ShortFastLzAt(req, s, at, PiecesIn(fs))
  }

  /** Waiting for its reply, a read raises something other than a protocol error exactly on the
      streams that begin with an acceptable part of a reply followed by a short FastLZ
      payload, and then it raises `struct.error`. */
  lemma {:induction false} StructErrorIff(req: Request, s: Bytes, pos: nat)
    requires pos <= |s|
    ensures var run := Replies(req, s, pos, []);
      && (run.Failed? && run.error != ProtocolError ==> run.error == StructError)
      && (run.Failed? && run.error == StructError <==>
            ShortFastLzAhead(req, s, pos))
  {
    hide AcceptablePart, EncodeAll, NextPiece, ShortFastLzAt, Replies;
    var run := Replies(req, s, pos, []);
    if run.Failed? {
      var fs, at := PartOfFailed(req, s, pos, []);
      assert [] + PiecesIn(fs) == PiecesIn(fs);
      RefusalError(req, s, at, run.acc);
    }
    forall fs, at: nat | pos <= at <= |s| && AcceptablePart(req, [], fs) && AllSendable(fs)
      && s[pos..at] == EncodeAll(fs) && ShortFastLzAt(req, s, at, PiecesIn(fs))
      ensures run.Failed? && run.error == StructError
    {
      RefusalError(req, s, at, PiecesIn(fs));
      var step := NextPiece(req, s, at, PiecesIn(fs));
      FailedIsPartThenRefusal(req, s, pos, step.error, step.pos, PiecesIn(fs), step.at, step.partial);
    }
  }
}
