/** Concrete streams: conforming servers for any calls and for a whole connection, so that the
    theorems about them are about something; and replies that show where the checks of
    `readinto` stop. */
module Limits {
  import opened Wire
  import opened Frames
  import opened Pieces
  import opened Reading
  import opened Requests
  import opened SkipMode
  import opened Conforming
  import opened Serving
  import opened Runs
  import opened Opening
  import opened Connections

  /** A piece as the reply fragment docs/nfc_read.md lays out. */
  function Fragment(opId: nat, offset: nat, total: nat, p: Piece): (f: AioFrame)
    requires opId < U32_BOUND && offset < U64_BOUND && p.ctype < U32_BOUND
    requires p.dest + p.chunkLen <= total < U32_BOUND && |p.extra| < U32_BOUND
    ensures f.Sendable()
  {
    var opcode := Opcode(NFC_AIO_IO_READ, p.ctype);
    var fs := FragmentFields(0, opcode, offset, total, p.dest, p.chunkLen, |p.extra|);
    assert AllFit(fs);
    FragmentLayout(0, opcode, offset, total, p.dest, p.chunkLen, |p.extra|, []);
    AioFrame(NFC_AIO_MSG_IO, opId, Pack(fs).value, p.extra)
  }

  lemma {:induction false} FragmentFacts(opId: nat, offset: nat, total: nat, p: Piece)
    requires opId < U32_BOUND && offset < U64_BOUND
    requires p.dest + p.chunkLen <= total < U32_BOUND && 1 <= |p.extra| < U32_BOUND
    requires p.ctype == NFC_COMPRESSION_FASTLZ
          || (p.ctype == NFC_COMPRESSION_NONE && |p.extra| == p.chunkLen)
    ensures var f := Fragment(opId, offset, total, p);
      IsReply(opId, f) && ToPiece(f) == p
  {
    var f, opcode := Fragment(opId, offset, total, p), Opcode(NFC_AIO_IO_READ, p.ctype);
    FragmentLayout(0, opcode, offset, total, p.dest, p.chunkLen, |p.extra|, []);
    assert f.payload + [] == f.payload;
    OpcodeSplits(f.payload, NFC_AIO_IO_READ, p.ctype);
  }

  /** Sending the content as one fragment is a conforming reply. */
  lemma {:induction false} OneFragmentReply(lib: FastLz.Library, opId: nat, offset: nat,
                                            content: Bytes, p: Piece)
    returns (ws: seq<AioFrame>)
    requires opId < U32_BOUND && offset < U64_BOUND && 1 <= |content| < U32_BOUND
    requires p.dest == 0 && p.chunkLen == |content| && 1 <= |p.extra| < U32_BOUND
    requires p.ctype == NFC_COMPRESSION_FASTLZ || p.ctype == NFC_COMPRESSION_NONE
    requires Decoded(lib, p) == Some(content)
    ensures ReplyTo(lib, opId, ws, content) && AllSendable(ws) && PiecesIn(ws) == [p]
  {
    var f := Fragment(opId, offset, |content|, p);
    FragmentFacts(opId, offset, |content|, p);
    hide *;
    ws := OneIsReply(lib, opId, content, p, f);
  }

  lemma {:induction false} OneIsReply(lib: FastLz.Library, opId: nat, content: Bytes, p: Piece,
                                      f: AioFrame)
    returns (ws: seq<AioFrame>)
    requires f.Sendable() && IsReply(opId, f) && ToPiece(f) == p
    requires p.dest == 0 && p.chunkLen == |content| >= 1 && Decoded(lib, p) == Some(content)
    ensures ReplyTo(lib, opId, ws, content) && AllSendable(ws) && PiecesIn(ws) == [p]
  {
    hide IsReply, Decoded, Span, ToPiece;
    ws := [f];
    PieceAt(ws, 0);
    assert PiecesIn(ws) == [p];
    assert content[0..|content|] == content;
    assert Init([p]) == [] && Covered([p]) == Covered([]) + Cells(p);
  }

  lemma {:induction false} RawReply(lib: FastLz.Library, opId: nat, offset: nat, content: Bytes)
    returns (ws: seq<AioFrame>)
    requires opId < U32_BOUND && offset < U64_BOUND && 1 <= |content| < U32_BOUND
    ensures ReplyTo(lib, opId, ws, content) && AllSendable(ws)
    ensures SumExtras(PiecesIn(ws)) == |content|
  {
    var p := Piece(0, |content|, NFC_COMPRESSION_NONE, content);
    ws := OneFragmentReply(lib, opId, offset, content, p);
    Snoc([], p);
    assert [] + [p] == [p];
  }

  /** And there is a session to make them in: a compressing one, on any disk that can be
      addressed. */
  lemma {:induction false} SomeSession(disk: Bytes, handle: nat, bufferSize: nat)
    requires |disk| <= U64_BOUND && handle < U64_BOUND && bufferSize >= 1
    ensures Sound(Session(FastLz.RunLength(), handle, 512, NFC_COMPRESSION_FASTLZ, bufferSize),
                  Server(disk, handle))
  {
    FastLz.ContractIsSatisfiable();
    hide FastLz.Contract, FastLz.RunLength, FastLz.Compress;
  }

  /** Every list of in-bounds operations has a conforming server to run against. */
  lemma {:induction false} SomeServer(p: Session, srv: Server, opId: nat, ops: seq<Op>)
    returns (s: Bytes, last: Server)
    requires Sound(p, srv) && AllInBounds(p.sectorSize, |srv.disk|, ops)
    requires opId + IdsTaken(p.sectorSize, ops) <= U32_BOUND
    ensures Serves(p, srv, opId, ops, s, last)
    decreases |ops|
  {
    hide Answers, RequestOf, FastLz.Contract, NeverRaises, ArrayStep;
    if ops == [] {
      s, last := [], srv;
    } else {
      assert InBounds(p.sectorSize, |srv.disk|, ops[0]);
      if Rejected(p.sectorSize, ops[0]) {
        s, last := SomeServer(p, srv, NextId(p.sectorSize, opId, ops[0]), ops[1..]);
      } else {
        var reply, next := SomeAnswer(p, srv, opId, ops[0]);
        var rest;
        rest, last := SomeServer(p, next, opId + 1, ops[1..]);
        s := reply + rest;
        assert s[..|reply|] == reply && s[|reply|..] == rest;
      }
    }
  }

  lemma {:induction false} SomeAnswer(p: Session, srv: Server, opId: nat, op: Op)
    returns (reply: Bytes, next: Server)
    requires Sound(p, srv) && opId < U32_BOUND
    requires !Rejected(p.sectorSize, op) && InBounds(p.sectorSize, |srv.disk|, op)
    ensures Answers(p.lib, srv, RequestOf(p, opId, op), Skips(op), next, reply)
    ensures |next.disk| == |srv.disk| && next.handle == srv.handle
  {
    assert p.bufferSize >= 1;
    hide *;
    match op {
      case ReadOp(_, _) =>
        NotRejected(p.sectorSize, op);
        var into := IntoZeros(p.sectorSize, op);
        ReadIsReadIntoOfArray(srv.disk, p.sectorSize, op);
        ReadIsReadInto(p, opId, op, [], 0);
        IntoIsReadInto(p.sectorSize, op);
        reply, next := SomeReadAnswer(p, srv, opId, into);
      case ReadIntoOp(_, _, _, _, _) => reply, next := SomeReadAnswer(p, srv, opId, op);
      case WriteOp(_, _, _) => reply, next := SomeWriteAnswer(p, srv, opId, op);
    }
  }

  lemma {:induction false} SomeReadAnswer(p: Session, srv: Server, opId: nat, op: Op)
    returns (reply: Bytes, next: Server)
    requires Sound(p, srv) && opId < U32_BOUND && op.ReadIntoOp?
    requires !Rejected(p.sectorSize, op) && InBounds(p.sectorSize, |srv.disk|, op)
    ensures Answers(p.lib, srv, RequestOf(p, opId, op), Skips(op), next, reply)
    ensures |next.disk| == |srv.disk| && next.handle == srv.handle
  {
    hide PrepareRead, ReplyTo, Answers, EncodeAll, RequestOf, FastLz.Contract, NeverRaises;
    var lo, n := op.start * p.sectorSize, op.num * p.sectorSize;
    AtLeastOne(op.num, p.sectorSize);
    ReadIsSent(p, opId, op.start, op.num, |op.buf|);
    ReadRequest(p, opId, op);
    var ws := RawReply(p.lib, opId, lo, srv.disk[lo..lo + n]);
    reply, next := EncodeAll(ws), srv;
    ReadReachesServer(p, opId, op.start, op.num, |op.buf|, srv, op.skip, next, reply);
  }

  lemma {:induction false} SomeWriteAnswer(p: Session, srv: Server, opId: nat, op: Op)
    returns (reply: Bytes, next: Server)
    requires Sound(p, srv) && opId < U32_BOUND && op.WriteOp?
    requires !Rejected(p.sectorSize, op) && InBounds(p.sectorSize, |srv.disk|, op)
    ensures Answers(p.lib, srv, RequestOf(p, opId, op), Skips(op), next, reply)
    ensures |next.disk| == |srv.disk| && next.handle == srv.handle
  {
    hide Answers, EncodeAll, RequestOf, WriteFrames, FastLz.Contract, NeverRaises, AioFrame.Encode;
    var lo := op.start * p.sectorSize;
    AtLeastOne(op.num, p.sectorSize);
    AllChunksEncode(p, op.data, 0);
    WriteSucceedsIff(p, opId, lo, op.data, 0);
    WriteRequest(p, opId, op);
    var ack := AioFrame(NFC_AIO_MSG_IO, opId, [], []);
    reply, next := ack.Encode(), srv.(disk := Splice(srv.disk, lo, op.data));
    WriteReachesDisk(p, opId, lo, op.data, srv, Skips(op), next, reply);
  }

  /** An operation id can go by without ever being sent: one sector written in front of the disk
      takes the id and raises `struct.error`, with nothing on the wire. */
  lemma {:induction false} SkippedId(p: Session, srv: Server, opId: nat, data: Bytes, s: Bytes, pos: nat)
    requires Sound(p, srv) && |data| == p.sectorSize && pos <= |s|
    ensures Runs.Step(p, opId, WriteOp(-1, 1, data), s, pos)
         == Stepped(opId + 1, [], pos, Raised(StructError))
    ensures IdsTaken(p.sectorSize, [WriteOp(-1, 1, data)]) == 1
    ensures IdsSent(p.sectorSize, opId, [WriteOp(-1, 1, data)]) == {}
  {
    hide Runs.Step, NeverRaises, FastLz.Contract;
    var op := WriteOp(-1, 1, data);
    assert Refusal(p.sectorSize, op) == Some(StructError);
    RejectedStep(p, opId, op, s, pos);
    assert [op][1..] == [];
  }

  // ---------- a whole connection ----------

  /** The reply to OPEN_FILE that announces the session's handle and sector size. */
  lemma {:induction false} DiskReply(p: Session) returns (payload: Bytes)
    requires 0 <= p.handle < U64_BOUND && 1 <= p.sectorSize < U32_BOUND
    ensures |payload| == 40 && MakesDisk(p, ParseOpenReply(payload))
  {
    var fs := [U64(0), U64(p.handle), U32(NFC_DISK), U32(0), U32(0), U32(0), U32(0), U32(p.sectorSize)];
    assert AllFit(fs);
    assert Offset(fs, 1) == 8 && Offset(fs, 2) == 16 && Offset(fs, 3) == 20 && Offset(fs, 4) == 24
        && Offset(fs, 5) == 28 && Offset(fs, 6) == 32 && Offset(fs, 7) == 36 && Offset(fs, 8) == 40;
    payload := Pack(fs).value;
    assert payload + [] == payload;
    UnpackOfPack(fs, [], 1);
    UnpackOfPack(fs, [], 2);
    UnpackOfPack(fs, [], 7);
    hide Pack, GetU32, GetU64;
  }

  /** The handshake replies docs/nfc_open.md shows: a 1 at offset 16 of the first, version 11. */
  lemma {:induction false} DocumentedHello() returns (s: Bytes)
    ensures |s| == 792 && AnswersHandshake(s, 0)
    ensures GetU32(s, 16) == 1 && GetU32(s, 264 + 4) == 11
  {
    hide Msg, Le, GetU32, Zeros, AnswersHandshake;
    var params, version := Zeros(12) + Le(4, 1), Le(4, 11);
    MsgType(NFC_MSG_SESSION_PARAMS_REPLY, params);
    MsgType(NFC_MSG_VERSION, version);
    MsgType(NFC_MSG_AIO_SESSION_OPEN, []);
    var a, b := Msg(NFC_MSG_SESSION_PARAMS_REPLY, params), Msg(NFC_MSG_VERSION, version);
    assert a[16..20] == a[4..20][12..16] == Le(4, 1);
    U32OfLe(a, 16, 1);
    U32OfLe(b, 4, 11);
    s := JoinedHello(a, b, Msg(NFC_MSG_AIO_SESSION_OPEN, []));
  }

  lemma {:induction false} JoinedHello(a: Bytes, b: Bytes, c: Bytes) returns (s: Bytes)
    requires |a| == |b| == |c| == 264 && GetU32(a, 0) == NFC_MSG_SESSION_PARAMS_REPLY
    requires GetU32(b, 0) == NFC_MSG_VERSION && GetU32(c, 0) == NFC_MSG_AIO_SESSION_OPEN
    requires GetU32(a, 16) == 1 && GetU32(b, 4) == 11
    ensures |s| == 792 && AnswersHandshake(s, 0) && GetU32(s, 16) == 1 && GetU32(s, 268) == 11
  {
    hide UnLe;
    s := a + (b + c);
    assert s[0..264] == a && s[264..528] == b && s[528..792] == c;
    assert s[16..20] == a[16..20] && s[268..272] == b[4..8];
  }

  lemma {:induction false} MsgType(msgType: nat, body: Bytes)
    requires msgType < U32_BOUND && |body| <= Client.NFC_MSG_SIZE - 4
    ensures GetU32(Msg(msgType, body), 0) == msgType
    ensures Msg(msgType, body)[4..4 + |body|] == body
  {
    hide GetU32;
    var m := Msg(msgType, body);
    assert m[0..4] == Le(4, msgType);
    U32OfLe(m, 0, msgType);
  }

  lemma {:induction false} SomeOpening(p: Session) returns (s: Bytes, peer: Peer)
    requires 0 <= p.handle < U64_BOUND && 1 <= p.sectorSize < U32_BOUND
    ensures ServesOpen(p, s, 0, peer) && peer.at[4] == |s|
    ensures GetU32(s, 16) == 1 && GetU32(s, 264 + 4) == 11
  {
    hide GetU32, ParseOpenReply, AioFrame.Encode, MakesDisk, AnswersHandshake;
    var payload := DiskReply(p);
    var hello := DocumentedHello();
    var r0 := AioFrame(NFC_AIO_MSG_OPEN_SESSION, 0, [], []);
    var r1 := AioFrame(NFC_AIO_MSG_SET_SOCK_OPTS, 1, [], []);
    var r2 := AioFrame(NFC_AIO_MSG_SET_RES_POOL, 2, [], []);
    var r3 := AioFrame(NFC_AIO_MSG_OPEN_FILE, 3, payload, []);
    var rest := r0.Encode() + (r1.Encode() + (r2.Encode() + r3.Encode()));
    s := hello + rest;
    HelloExtends(hello, rest);
    peer := Peer([r0, r1, r2, r3], [792, 808, 824, 840, 896], 0, 0, r0, r0);
  }

  lemma {:induction false} HelloExtends(s: Bytes, more: Bytes)
    requires AnswersHandshake(s, 0)
    ensures AnswersHandshake(s + more, 0)
    ensures GetU32(s + more, 16) == GetU32(s, 16) && GetU32(s + more, 268) == GetU32(s, 268)
  {
    hide UnLe;
    PrefixSlice(s, more, 0, 264);
    PrefixSlice(s, more, 264, 528);
    PrefixSlice(s, more, 528, 792);
    PrefixSlice(s, more, 16, 20);
    PrefixSlice(s, more, 268, 272);
  }

  lemma {:induction false} OpeningExtends(p: Session, s: Bytes, peer: Peer, more: Bytes)
    requires ServesOpen(p, s, 0, peer)
    ensures ServesOpen(p, s + more, 0, peer)
  {
    hide AnswersHandshake, ParseOpenReply, AioFrame.Encode, MakesDisk;
    HelloExtends(s, more);
    AnswerStays(peer.opening, s, peer.at, more, 0);
    AnswerStays(peer.opening, s, peer.at, more, 1);
    AnswerStays(peer.opening, s, peer.at, more, 2);
    AnswerStays(peer.opening, s, peer.at, more, 3);
  }

  lemma {:induction false} AnswerStays(rs: seq<AioFrame>, s: Bytes, at: seq<nat>, more: Bytes, k: nat)
    requires AnswersOpen(rs, s, at) && k < 4
    ensures |at| == 5 && at[k] <= at[k + 1] <= |s|
    ensures (s + more)[at[k]..at[k + 1]] == s[at[k]..at[k + 1]]
  {
    hide AioFrame.Encode;
    AnswerAt(rs, s, at, k);
    PrefixSlice(s, more, at[k], at[k + 1]);
  }

  /** Every list of in-bounds operations has a conforming server for the whole connection. */
  lemma {:induction false} SomeConnection(a: OpenArgs, p: Session, srv: Server, ops: seq<Op>)
    returns (s: Bytes, peer: Peer, last: Server)
    requires Suits(a, p, srv, ops) && p.sectorSize < U32_BOUND
    ensures ServesConnection(p, srv, ops, s, 0, peer, last)
  {
    hide ServesOpen, Serves, Answers, FastLz.Contract, NeverRaises, AioFrame.Encode, ArgsFit, InBounds;
    var opening, peer0 := SomeOpening(p);
    var calls;
    calls, last := SomeServer(p, srv, 4, ops);
    var id := 4 + IdsTaken(p.sectorSize, ops);
    var file := AioFrame(NFC_AIO_MSG_CLOSE_FILE, id, [], []);
    var session := AioFrame(NFC_AIO_MSG_CLOSE_SESSION, id + 1, [], []);
    s := opening + (calls + (file.Encode() + session.Encode()));
    var end := |opening| + |calls|;
    peer := peer0.(end := end, mid := end + 16, file := file, session := session);
    OpeningIsServed(p, opening, peer0, peer, calls + (file.Encode() + session.Encode()));
    assert s[|opening|..end] == calls;
    assert s[end..end + 16] == file.Encode() && s[end + 16..] == session.Encode();
  }

  lemma {:induction false} OpeningIsServed(p: Session, s: Bytes, peer: Peer, other: Peer, more: Bytes)
    requires ServesOpen(p, s, 0, peer)
    requires other.opening == peer.opening && other.at == peer.at
    ensures ServesOpen(p, s + more, 0, other) && |other.at| == 5 && other.at[4] == peer.at[4]
  {
    OpeningExtends(p, s, peer, more);
    hide AnswersHandshake, ParseOpenReply, AioFrame.Encode, MakesDisk, AnswersOpen;
  }

  // ---------- where the checks of `readinto` stop ----------

  function RawPiece(dest: nat, n: nat): Piece {
    Piece(dest, n, NFC_COMPRESSION_NONE, Zeros(n))
  }

  /** Two raw fragments that together count to a 512-byte request, wherever the second one
      lies, are accepted and complete it. */
  lemma {:induction false} TwoAreAccepted(lib: FastLz.Library, opId: nat, n: nat, dest: nat, m: nat)
    returns (s: Bytes)
    requires opId < U32_BOUND && 1 <= n < 512 && 1 <= dest && 1 <= m && dest + m <= 512 <= n + m
    ensures var req := Request(lib, opId, 512, false);
      var acc := [RawPiece(0, n), RawPiece(dest, m)];
      Accepted(req, acc) && Replies(req, s, 0, []) == Done(|s|, acc)
  {
    var req := Request(lib, opId, 512, false);
    var p, q := RawPiece(0, n), RawPiece(dest, m);
    var a, b := Fragment(opId, 0, 512, p), Fragment(opId, 0, 512, q);
    FragmentFacts(opId, 0, 512, p);
    FragmentFacts(opId, 0, 512, q);
    hide *;
    BothAccepted(req, a, b, n, dest, m);
    s := TwoFrames(req, a, b, p, q);
  }

  /** Overlap is not rejected: for a 512-byte read, 300 bytes at 0 and 212 bytes at 1 pass every
      check and complete the read, with the last 212 bytes never written. */
  lemma {:induction false} OverlapIsAccepted(lib: FastLz.Library, opId: nat, buf: Bytes)
    returns (s: Bytes)
    requires opId < U32_BOUND && |buf| == 512
    ensures var req := Request(lib, opId, 512, false);
      var run := Replies(req, s, 0, []);
      && run.Done? && run.pos == |s| && SumChunks(run.acc) == 512 && !Disjoint(run.acc)
      && forall i :: 300 <= i < 512 ==>
           (i !in Covered(run.acc) && |BufferAfter(req, buf, run)| == 512
            && BufferAfter(req, buf, run)[i] == buf[i])
  {
    var req := Request(lib, opId, 512, false);
    var p, q := RawPiece(0, 300), RawPiece(1, 212);
    hide *;
    s := TwoAreAccepted(lib, opId, 300, 1, 212);
    OverlapLeavesGap(lib, buf, p, q);
    BufferIsAssembled(req, buf, |s|, [p, q]);
  }

  /** Nor does overlap always leave a gap: 300 bytes at 0 and 312 bytes at 200 complete the same
      read with every byte written, and a count past the request. */
  lemma {:induction false} OverlapCanCover(lib: FastLz.Library, opId: nat) returns (s: Bytes)
    requires opId < U32_BOUND
    ensures var run := Replies(Request(lib, opId, 512, false), s, 0, []);
      && run.Done? && run.pos == |s| && SumChunks(run.acc) == 612 && !Disjoint(run.acc)
      && Covered(run.acc) == Span(0, 512)
  {
    hide Replies, Span, Zeros, SumChunks, Covered;
    var p, q := RawPiece(0, 300), RawPiece(200, 312);
    s := TwoAreAccepted(lib, opId, 300, 200, 312);
    TwoPieces(p, q);
    assert [p, q][0] == p && [p, q][1] == q && !Apart(p, q);
  }

  lemma {:induction false} BothAccepted(req: Request, a: AioFrame, b: AioFrame, n: nat, dest: nat, m: nat)
    requires IsReply(req.opId, a) && ToPiece(a) == RawPiece(0, n)
    requires IsReply(req.opId, b) && ToPiece(b) == RawPiece(dest, m)
    requires 1 <= n < 512 && 1 <= dest && 1 <= m && dest + m <= 512 <= n + m
    requires req.length == 512 && !req.skip
    ensures AllSendable([a, b]) && AcceptableRun(req, [], [a, b])
  {
    hide *;
    var p, q := RawPiece(0, n), RawPiece(dest, m);
    RawPieceIs(0, n);
    RawPieceIs(dest, m);
    TwoCounts(p, q);
    RawIsAcceptable(req, [], a, 0, n);
    RawIsAcceptable(req, [p], b, dest, m);
    assert [] + [p] == [p] && [p] + [q] == [p, q] && [a, b][1..] == [b] && [b][1..] == [];
    NothingLeft(req, [p, q]);
    AcceptableStep(req, [p], [b], [], [p, q]);
    AcceptableStep(req, [], [a, b], [b], [p]);
    RunIsReplies(req, [], [a, b]);
  }

  lemma {:induction false} NothingLeft(req: Request, acc: seq<Piece>)
    requires SumChunks(acc) >= req.length
    ensures AcceptableRun(req, acc, [])
  {
  }

  lemma {:induction false} TwoCounts(p: Piece, q: Piece)
    ensures SumChunks([]) == 0 && SumChunks([p]) == p.chunkLen && Dests([]) == {} && Dests([p]) == {p.dest}
    ensures SumChunks([p, q]) == p.chunkLen + q.chunkLen
  {
    hide *;
    NoPiece();
    Snoc([], p);
    Snoc([p], q);
    assert [] + [p] == [p] && [p] + [q] == [p, q];
  }

  lemma {:induction false} NoPiece()
    ensures SumChunks([]) == 0 && Dests([]) == {}
  {
  }

  lemma {:induction false} RawPieceIs(dest: nat, n: nat)
    ensures RawPiece(dest, n).dest == dest && RawPiece(dest, n).chunkLen == n
  {
  }

  lemma {:induction false} RawIsAcceptable(req: Request, acc: seq<Piece>, f: AioFrame, dest: nat, n: nat)
    requires IsReply(req.opId, f) && ToPiece(f) == RawPiece(dest, n) && !req.skip
    requires 1 <= n && dest + n <= req.length && dest !in Dests(acc)
    ensures f.Sendable() && Acceptable(req, acc, f)
  {
    hide ToPiece, Zeros, Dests, GetU32, GetU64, AioExtraLen;
  }

  lemma {:induction false} OverlapLeavesGap(lib: FastLz.Library, buf: Bytes, p: Piece, q: Piece)
    requires p == RawPiece(0, 300) && q == RawPiece(1, 212) && |buf| == 512
    ensures SumChunks([p, q]) == 512 && !Disjoint([p, q]) && AllDecode(lib, [p, q])
    ensures |Assemble(lib, buf, [p, q])| == 512
    ensures forall i :: 300 <= i < 512 ==>
      (i !in Covered([p, q]) && Assemble(lib, buf, [p, q])[i] == buf[i])
  {
    hide Span, Zeros, Assemble, SumChunks, Covered;
    TwoPieces(p, q);
    var acc := [p, q];
    assert !Apart(acc[0], acc[1]);
    AssembleFrame(lib, buf, acc, 512);
  }

  lemma {:induction false} TwoPieces(p: Piece, q: Piece)
    ensures SumChunks([p, q]) == p.chunkLen + q.chunkLen
    ensures Covered([p, q]) == Cells(p) + Cells(q)
  {
    hide Span;
    assert Init([p, q]) == [p] && Init([p]) == [];
    assert Covered([p]) == Covered([]) + Cells(p) == Cells(p);
    assert SumChunks([p]) == p.chunkLen;
  }

  lemma {:induction false} BufferIsAssembled(req: Request, buf: Bytes, end: nat, acc: seq<Piece>)
    requires !req.skip && Accepted(req, acc)
    ensures AllDecode(req.lib, acc)
    ensures BufferAfter(req, buf, Done(end, acc)) == Assemble(req.lib, buf, acc)
  {
    AcceptedFacts(req, acc);
  }

  lemma {:induction false} TwoFrames(req: Request, a: AioFrame, b: AioFrame, p: Piece, q: Piece)
    returns (s: Bytes)
    requires AllSendable([a, b]) && p == ToPiece(a) && q == ToPiece(b)
    requires AcceptableRun(req, [], [a, b])
    ensures Accepted(req, [p, q]) && Replies(req, s, 0, []) == Done(|s|, [p, q])
  {
    s := EncodeAll([a, b]);
    assert s[0..|s|] == s;
    RepliesOfFrames(req, s, 0, |s|, [], [a, b]);
    PieceAt([a, b], 0);
    PieceAt([a, b], 1);
    assert [] + PiecesIn([a, b]) == [p, q];
  }

  /** A reply whose 36-byte payload announces FastLZ for the whole of a 512-byte read: in either
      mode, and with any library, the read raises `struct.error` at once. */
  lemma {:induction false} StructErrorWitness(lib: FastLz.Library, opId: nat, skip: bool)
    returns (s: Bytes)
    requires opId < U32_BOUND
    ensures |s| == 52
    ensures Replies(Request(lib, opId, 512, skip), s, 0, []) == Failed(StructError, 52, [], 0, [])
  {
    hide *;
    var body := ShortBody();
    var f, req := AioFrame(NFC_AIO_MSG_IO, opId, body, []), Request(lib, opId, 512, skip);
    s := ShortBodyIsRead(req, f);
  }

  /** The first 36 bytes of a FastLZ fragment. */
  lemma {:induction false} ShortBody() returns (body: Bytes)
    ensures |body| == 36 && ShortFastLz(body, 512, {})
  {
    hide *;
    var whole := FastLzPayload();
    body := CutBody(whole);
  }

  lemma {:induction false} FastLzPayload() returns (whole: Bytes)
    ensures |whole| == 44 && GetU64(whole, 8) / U32_BOUND == NFC_COMPRESSION_FASTLZ
    ensures GetU32(whole, 28) == 0 && GetU32(whole, 32) == 512
  {
    hide Pack, GetU32, GetU64;
    var opcode := Opcode(NFC_AIO_IO_READ, NFC_COMPRESSION_FASTLZ);
    var fs := FragmentFields(0, opcode, 0, 512, 0, 512, 0);
    assert AllFit(fs);
    FragmentLayout(0, opcode, 0, 512, 0, 512, 0, []);
    whole := Pack(fs).value;
    assert whole + [] == whole;
    OpcodeSplits(whole, NFC_AIO_IO_READ, NFC_COMPRESSION_FASTLZ);
  }

  lemma {:induction false} CutBody(whole: Bytes) returns (body: Bytes)
    requires |whole| == 44 && GetU64(whole, 8) / U32_BOUND == NFC_COMPRESSION_FASTLZ
    requires GetU32(whole, 28) == 0 && GetU32(whole, 32) == 512
    ensures |body| == 36 && ShortFastLz(body, 512, {})
  {
    hide UnLe;
    body := whole[..36];
    assert body[8..16] == whole[8..16] && body[28..32] == whole[28..32] && body[32..36] == whole[32..36];
  }

  lemma {:induction false} ShortBodyIsRead(req: Request, f: AioFrame) returns (s: Bytes)
    requires f.msgType == NFC_AIO_MSG_IO && f.opId == req.opId < U32_BOUND && f.extra == []
    requires |f.payload| == 36 && ShortFastLz(f.payload, 512, {}) && req.length == 512
    ensures |s| == 52 && Accepted(req, [])
    ensures Replies(req, s, 0, []) == Failed(StructError, 52, [], 0, [])
  {
    hide AioFrame.Encode, GetU32, GetU64, UnpackAioHdr, ReplyBody, TakeExtra;
    s := f.Encode();
    assert s[0..0 + f.Size()] == s;
    BodyOfFrame(s, 0, f);
    NoFragmentYet(req);
  }

  /** An error frame of one body byte: the read raises in the middle of it, with the body still in
      the stream, where the other receiver would be past it. */
  lemma {:induction false} ErrorBodyIsLeft(lib: FastLz.Library, opId: nat, skip: bool) returns (s: Bytes)
    requires opId < U32_BOUND
    ensures |s| == 17
    ensures Replies(Request(lib, opId, 512, skip), s, 0, []) == Failed(ProtocolError, 16, [], 0, [])
    ensures Client.RecvReply(s, 0) == Client.Received(17, Err(ProtocolError))
  {
    hide *;
    var f := AioFrame(1, opId, [0], []);
    s := ErrorFrame(f);
    Client.ErrorFrameAlignment(s, 0, f, Request(lib, opId, 512, skip));
  }

  lemma {:induction false} ErrorFrame(f: AioFrame) returns (s: Bytes)
    requires f.msgType == 1 && f.opId < U32_BOUND && |f.payload| == 1 && f.extra == []
    ensures f.Sendable() && f.Size() == |s| == 17 && s[0..0 + f.Size()] == f.Encode()
  {
    s := f.Encode();
  }

  lemma {:induction false} NoFragmentYet(req: Request)
    ensures Dests([]) == {} && SumChunks([]) == 0 && Accepted(req, [])
  {
  }

  /** A lossless library whose payload is longer than the data by a byte. */
  function Expanding(): FastLz.Library {
    FastLz.Library(
      (d: Bytes, level: nat) => Some(Le(4, |d|) + (d + [0])),
      (w: Bytes) => if |w| < 5 then None else Some(w[4..|w| - 1]))
  }

  lemma {:induction false} ExpandingIsLossless(data: Bytes)
    requires 1 <= |data| < U32_BOUND
    ensures FastLz.Contract(Expanding()) && FastLz.Compress(Expanding(), data) == Ok(data + [0])
    ensures FastLz.Decompress(Expanding(), data + [0], |data|) == Ok(data)
  {
    var lib := Expanding();
    forall d: Bytes, level: nat | lib.compress(d, level).Some? && |d| < U32_BOUND
      ensures var w := lib.compress(d, level).value;
        FastLz.PREFIX_SIZE <= |w| && w[..FastLz.PREFIX_SIZE] == Le(4, |d|) && lib.decompress(w) == Some(d)
    {
      var w := lib.compress(d, level).value;
      assert w[..4] == Le(4, |d|) && w[4..|w| - 1] == d;
    }
    assert (Le(4, |data|) + (data + [0]))[4..] == data + [0];
    FastLz.RoundTrip(lib, data);
  }

  /** The packed buffer is not always large enough: for any content at all, the compressed
      reply of a lossless library can be one that the plain read returns and the skipping read
      of the same stream refuses. */
  lemma {:induction false} PackedCanOverflow(opId: nat, content: Bytes) returns (s: Bytes)
    requires opId < U32_BOUND && 1 <= |content| < U32_BOUND - 1
    ensures FastLz.Contract(Expanding())
    ensures var plain := Request(Expanding(), opId, |content|, false);
      var run := Replies(plain, s, 0, []);
      && run.Done? && run.pos == |s| && SumExtras(run.acc) == |content| + 1
      && BufferAfter(plain, Zeros(|content|), run) == content
      && Replies(Skipping(plain), s, 0, []).Failed?
      && Replies(Skipping(plain), s, 0, []).error == ProtocolError
  {
    var lib := Expanding();
    ExpandingIsLossless(content);
    hide FastLz.Contract, FastLz.Compress, FastLz.Decompress, Expanding;
    var p := Piece(0, |content|, NFC_COMPRESSION_FASTLZ, content + [0]);
    var ws := OneFragmentReply(lib, opId, 0, content, p);
    Snoc([], p);
    assert [] + [p] == [p];
    s := EncodeAll(ws);
    assert s[0..|s|] == s;
    hide Decoded, EncodeAll, ReplyTo, PiecesIn, SumExtras;
    OverflowWhenPacked(lib, opId, content, ws, p, s);
  }

  lemma {:induction false} OverflowWhenPacked(lib: FastLz.Library, opId: nat, content: Bytes,
                                              ws: seq<AioFrame>, p: Piece, s: Bytes)
    requires ReplyTo(lib, opId, ws, content) && AllSendable(ws) && s == s[0..|s|] == EncodeAll(ws)
    requires PiecesIn(ws) == [p] && SumExtras([p]) > |content|
    ensures var plain := Request(lib, opId, |content|, false);
      && Replies(plain, s, 0, []) == Done(|s|, [p])
      && Accepted(plain, [p])
      && BufferAfter(plain, Zeros(|content|), Done(|s|, [p])) == content
      && Replies(Skipping(plain), s, 0, []).Failed?
      && Replies(Skipping(plain), s, 0, []).error == ProtocolError
  {
    hide Decoded, EncodeAll, ReplyTo, PiecesIn, SumExtras, Replies, Accepted, Assemble, Filled;
    var plain := Request(lib, opId, |content|, false);
    ReplyIsRead(plain, s, 0, |s|, ws, content);
    ReplyIsContent(lib, opId, ws, content, Zeros(|content|));
    assert content + Zeros(|content|)[|content|..] == content;
    BufferIsAssembled(plain, Zeros(|content|), |s|, [p]);
    NoFragmentYet(plain);
    NoFragmentYet(Skipping(plain));
    SkipAfterDecompress(plain, s, 0, [], |s|, [p]);
  }
}
