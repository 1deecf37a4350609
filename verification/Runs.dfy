/** Any list of reads and writes on an open disk, against any conforming server, behaves like a
    plain array of bytes; and what it sends, against any peer, are frames under rising ids. */
module Runs {
  import opened Wire
  import opened Frames
  import opened Pieces
  import opened Reading
  import opened Requests
  import opened SkipMode
  import opened Conforming
  import opened Serving
  import Client

  /** A caller's operation. A `readinto` that skips decompression includes the caller's
      rebuild of the packed buffer. */
  datatype Op =
    | ReadOp(start: int, num: int)
    | ReadIntoOp(start: int, num: int, buf: Bytes, readOnly: bool, skip: bool)
    | WriteOp(start: int, num: int, data: Bytes)

  datatype Answer = Data(bytes: Bytes) | Stored | Raised(error: Error)

  // ---------- the plain array ----------

  /** The offset and length of an operation do not fit the fields they are packed into. */
  function Unpackable(ss: nat, op: Op): Option<Error> {
    if 0 <= op.start * ss < U64_BOUND && op.num * ss < U32_BOUND then None else Some(StructError)
  }

  /** The exception of an operation that is refused before anything is sent. */
  function Refusal(ss: nat, op: Op): Option<Error> {
    if op.num < 1 then Some(ValueError)
    else match op
         case ReadOp(_, _) => Unpackable(ss, op)
         case ReadIntoOp(_, num, buf, readOnly, _) =>
           if readOnly then Some(TypeError)
           else if |buf| < num * ss then Some(RuntimeError)
           else Unpackable(ss, op)
         case WriteOp(_, num, data) =>
           if |data| != num * ss then Some(ValueError) else Unpackable(ss, op)
  }

  predicate Rejected(ss: nat, op: Op) {
    Refusal(ss, op).Some?
  }

  /** A write takes its operation id before it packs anything: refused there, it has used up an
      id and sent nothing. */
  predicate Silent(ss: nat, op: Op) {
    op.WriteOp? && Refusal(ss, op) == Some(StructError)
  }

  predicate TakesId(ss: nat, op: Op) {
    !Rejected(ss, op) || Silent(ss, op)
  }

  function NextId(ss: nat, opId: nat, op: Op): nat {
    if TakesId(ss, op) then opId + 1 else opId
  }

  predicate Skips(op: Op) {
    op.ReadIntoOp? && op.skip
  }

  /** An operation the client sends stays on the disk. */
  predicate InBounds(ss: nat, size: nat, op: Op) {
    Rejected(ss, op) || op.start * ss + op.num * ss <= size
  }

  ghost predicate AllInBounds(ss: nat, size: nat, ops: seq<Op>) {
    forall k :: 0 <= k < |ops| ==> InBounds(ss, size, ops[k])
  }

  datatype ArrayOutcome = Array(disk: Bytes, answer: Answer)

  /** A read returns the bytes, in front of what the caller's buffer holds behind them. */
  function ArrayStep(disk: Bytes, ss: nat, op: Op): (r: ArrayOutcome)
    requires InBounds(ss, |disk|, op)
    ensures |r.disk| == |disk|
  {
    if Rejected(ss, op) then Array(disk, Raised(Refusal(ss, op).value))
    else
      var lo, n := op.start * ss, op.num * ss;
      match op
      case ReadOp(_, _) => Array(disk, Data(disk[lo..lo + n]))
      case ReadIntoOp(_, _, buf, _, _) => Array(disk, Data(disk[lo..lo + n] + buf[n..]))
      case WriteOp(_, _, data) => Array(Splice(disk, lo, data), Stored)
  }

  datatype ArrayResult = ArrayResult(disk: Bytes, answers: seq<Answer>)

  ghost function ArrayRun(disk: Bytes, ss: nat, ops: seq<Op>): (r: ArrayResult)
    requires AllInBounds(ss, |disk|, ops)
    ensures |r.disk| == |disk| && |r.answers| == |ops|
    decreases |ops|
  {
    if ops == [] then ArrayResult(disk, [])
    else
      var first := ArrayStep(disk, ss, ops[0]);
      var rest := ArrayRun(first.disk, ss, ops[1..]);
      ArrayResult(rest.disk, [first.answer] + rest.answers)
  }

  // ---------- the client over its byte streams ----------

  datatype Stepped = Stepped(opId: nat, sent: Bytes, pos: nat, answer: Answer)

  ghost function Step(p: Session, opId: nat, op: Op, s: Bytes, pos: nat): (r: Stepped)
    requires pos <= |s| && p.bufferSize >= 1
    ensures pos <= r.pos <= |s|
  {
    match op
    case ReadOp(start, num) =>
      var e := Client.Read(p, opId, start, num, s, pos);
      Stepped(e.opId, e.sent, e.pos, if e.result.Ok? then Data(e.result.value) else Raised(e.result.error))
    case ReadIntoOp(start, num, buf, readOnly, skip) =>
      var r := Client.ReadInto(p, opId, start, num, buf, readOnly, skip, s, pos);
      Stepped(r.effect.opId, r.effect.sent, r.effect.pos, Seen(p.lib, skip, r.effect.result, r.buf))
    case WriteOp(start, num, data) =>
      var e := Client.Write(p, opId, start, num, data, s, pos);
      Stepped(e.opId, e.sent, e.pos, if e.result.Ok? then Stored else Raised(e.result.error))
  }

  /** What the caller of `readinto` has in the end: the buffer, after a skipping read with the
      request rebuilt from its packed bytes. */
  function Seen(lib: FastLz.Library, skip: bool, r: Result<ReadResult>, buf: Bytes): Answer {
    match r
    case Err(e) => Raised(e)
    case Ok(result) =>
      if !skip then Data(buf)
      else match Rebuild(lib, buf, result)
           case Err(e) => Raised(e)
           case Ok(out) => Data(out + buf[Min(|out|, |buf|)..])
  }

  datatype RunResult = RunResult(opId: nat, sent: Bytes, pos: nat, answers: seq<Answer>)

  ghost function Run(p: Session, opId: nat, ops: seq<Op>, s: Bytes, pos: nat): (r: RunResult)
    requires pos <= |s| && p.bufferSize >= 1
    ensures pos <= r.pos <= |s| && |r.answers| == |ops|
    decreases |ops|
  {
    if ops == [] then RunResult(opId, [], pos, [])
    else
      var first := Step(p, opId, ops[0], s, pos);
      var rest := Run(p, first.opId, ops[1..], s, first.pos);
      RunResult(rest.opId, first.sent + rest.sent, rest.pos, [first.answer] + rest.answers)
  }

  /** One more operation at the end of a run. */
  lemma {:induction false} RunSnoc(p: Session, opId: nat, ops: seq<Op>, op: Op, s: Bytes, pos: nat)
    requires pos <= |s| && p.bufferSize >= 1
    ensures var run := Run(p, opId, ops, s, pos);
      var last := Step(p, run.opId, op, s, run.pos);
      Run(p, opId, ops + [op], s, pos)
      == RunResult(last.opId, run.sent + last.sent, last.pos, run.answers + [last.answer])
    decreases |ops|
  {
    hide Step;
    if ops == [] {
      assert ops + [op] == [op] && [op][1..] == [];
      var last := Step(p, opId, op, s, pos);
      assert last.sent + [] == last.sent == [] + last.sent;
    } else {
      assert (ops + [op])[1..] == ops[1..] + [op];
      var first := Step(p, opId, ops[0], s, pos);
      RunSnoc(p, first.opId, ops[1..], op, s, first.pos);
      var rest := Run(p, first.opId, ops[1..], s, first.pos);
      var last := Step(p, rest.opId, op, s, rest.pos);
      ConcatAssoc(first.sent, rest.sent, last.sent);
      ConcatAssoc([first.answer], rest.answers, [last.answer]);
    }
  }

  /** The bytes an operation sends; they do not depend on what the server sends back. */
  ghost function RequestOf(p: Session, opId: nat, op: Op): Bytes
    requires p.bufferSize >= 1
  {
    Step(p, opId, op, [], 0).sent
  }

  /** `s` is everything a conforming server sends while the client makes the calls `ops`, and
      `last` is where the server ends. */
  ghost predicate Serves(p: Session, srv: Server, opId: nat, ops: seq<Op>, s: Bytes, last: Server)
    requires p.bufferSize >= 1
    decreases |ops|
  {
    if ops == [] then s == [] && last == srv
    else if Rejected(p.sectorSize, ops[0]) then
      Serves(p, srv, NextId(p.sectorSize, opId, ops[0]), ops[1..], s, last)
    else exists n: nat, next: Server ::
      (n <= |s| && Answers(p.lib, srv, RequestOf(p, opId, ops[0]), Skips(ops[0]), next, s[..n])
       && Serves(p, next, opId + 1, ops[1..], s[n..], last))
  }

  /** The number of operation ids the operations take. */
  function IdsTaken(ss: nat, ops: seq<Op>): (n: nat)
    ensures n <= |ops|
  {
    if ops == [] then 0 else (if TakesId(ss, ops[0]) then 1 else 0) + IdsTaken(ss, ops[1..])
  }

  /** The ids given to the operations that are sent. */
  function IdsSent(ss: nat, opId: nat, ops: seq<Op>): set<nat>
    decreases |ops|
  {
    if ops == [] then {}
    else
      (if Rejected(ss, ops[0]) then {} else {opId})
      + IdsSent(ss, NextId(ss, opId, ops[0]), ops[1..])
  }

  /** What `open_disk` and the FastLZ library give a session. */
  ghost predicate Sound(p: Session, srv: Server) {
    && p.bufferSize >= 1 && p.sectorSize >= 1
    && (p.compression == NFC_COMPRESSION_NONE || p.compression == NFC_COMPRESSION_FASTLZ)
    && 0 <= p.handle < U64_BOUND && srv.handle == p.handle && |srv.disk| <= U64_BOUND
    && FastLz.Contract(p.lib) && NeverRaises(p.lib)
  }

  ghost predicate NeverRaises(lib: FastLz.Library) {
    forall d: Bytes :: |d| >= 16 ==> FastLz.Compress(lib, d).Ok?
  }

  // ---------- one operation ----------

  lemma {:induction false} AllChunksEncode(p: Session, data: Bytes, at: nat)
    requires p.bufferSize >= 1 && at <= |data| && NeverRaises(p.lib)
    ensures AllEncode(p, data, at)
    decreases |data| - at
  {
    if at < |data| {
      AllChunksEncode(p, data, at + |Chunk(p, data, at)|);
    }
  }

  /** A refused operation sends and receives nothing, and takes an operation id only when it is
      a write whose arguments do not pack. */
  lemma {:induction false} RejectedStep(p: Session, opId: nat, op: Op, s: Bytes, pos: nat)
    requires p.bufferSize >= 1 && p.sectorSize >= 1 && NeverRaises(p.lib)
    requires pos <= |s| && Rejected(p.sectorSize, op)
    ensures Step(p, opId, op, s, pos)
         == Stepped(NextId(p.sectorSize, opId, op), [], pos, Raised(Refusal(p.sectorSize, op).value))
  {
    hide Replies, BufferAfter, WriteFrames, Rebuild, Pack, ReadFields, FastLz.Compress, EncodeAll;
    if op.num >= 1 {
      if op.WriteOp? {
        if Silent(p.sectorSize, op) {
          WriteDoesNotPack(p, opId, op.start * p.sectorSize, op.data, op.num);
        }
      } else if Unpackable(p.sectorSize, op).Some? {
        ReadDoesNotPack(p, op.start * p.sectorSize, op.num * p.sectorSize);
      }
    }
  }

  /** The call raises whatever the disk and its peer are. */
  predicate AlwaysRaises(op: Op) {
    op.num < 1 || (op.ReadIntoOp? && op.readOnly)
  }

  lemma {:induction false} AlwaysRaised(p: Session, opId: nat, op: Op, s: Bytes, pos: nat)
    requires pos <= |s| && p.bufferSize >= 1
    ensures AlwaysRaises(op) ==> Step(p, opId, op, s, pos).answer.Raised?
  {
    hide Replies, BufferAfter, WriteFrames, Rebuild, Pack, ReadFields;
  }

  lemma {:induction false} ReadDoesNotPack(p: Session, offset: int, length: int)
    requires !(0 <= offset < U64_BOUND) || !(length < U32_BOUND)
    ensures Pack(ReadFields(p.handle, Opcode(NFC_AIO_IO_READ, p.compression), offset, length)).None?
  {
    var fs := ReadFields(p.handle, Opcode(NFC_AIO_IO_READ, p.compression), offset, length);
    assert !fs[2].Fits() || !fs[4].Fits();
  }

  lemma {:induction false} WriteDoesNotPack(p: Session, opId: nat, offset: int, data: Bytes, num: int)
    requires p.bufferSize >= 1 && p.sectorSize >= 1 && NeverRaises(p.lib)
    requires num >= 1 && |data| == num * p.sectorSize
    requires !(0 <= offset < U64_BOUND) || !(|data| < U32_BOUND)
    ensures WriteFrames(p, opId, offset, data, 0) == WriteRun([], Some(StructError))
    ensures EncodeAll(WriteFrames(p, opId, offset, data, 0).frames) == []
  {
    AtLeastOne(num, p.sectorSize);
    AllChunksEncode(p, data, 0);
    WriteFrameFits(p, opId, offset, data, 0);
    hide Pack, FragmentFields;
  }

  lemma {:induction false} ReadRequest(p: Session, opId: nat, op: Op)
    requires p.bufferSize >= 1 && op.ReadIntoOp? && !op.readOnly
    requires PrepareRead(p, opId, op.start, op.num, |op.buf|, false).Send?
    ensures RequestOf(p, opId, op) == PrepareRead(p, opId, op.start, op.num, |op.buf|, false).frame
  {
    hide PrepareRead, Replies, BufferAfter, Seen;
  }

  /** A completed `readinto`, as the caller sees it. */
  lemma {:induction false} ReadIntoReturns(p: Session, opId: nat, op: Op, s: Bytes, pos: nat, end: nat,
                                           ps: seq<Piece>, content: Bytes)
    requires op.ReadIntoOp? && !op.readOnly && pos <= |s| && p.bufferSize >= 1
    requires PrepareRead(p, opId, op.start, op.num, |op.buf|, false).Send?
    requires |content| == op.num * p.sectorSize
    requires var req := Request(p.lib, opId, |content|, op.skip);
      && Replies(req, s, pos, []) == Done(end, ps)
      && Seen(p.lib, op.skip, Ok(Client.Result(req, ps)), BufferAfter(req, op.buf, Done(end, ps)))
         == Data(content + op.buf[Min(|content|, |op.buf|)..])
    ensures Step(p, opId, op, s, pos)
         == Stepped(opId + 1, PrepareRead(p, opId, op.start, op.num, |op.buf|, false).frame, end,
                    Data(content + op.buf[Min(|content|, |op.buf|)..]))
  {
    hide PrepareRead, Replies, BufferAfter, Seen, Client.Result;
  }

  lemma {:induction false} ReplyIsSeen(req: Request, s: Bytes, pos: nat, end: nat, ws: seq<AioFrame>,
                                       content: Bytes, buf: Bytes)
    requires ReplyTo(req.lib, req.opId, ws, content) && req.length == |content| <= |buf|
    requires req.skip ==> SumExtras(PiecesIn(ws)) <= |content|
    requires AllSendable(ws) && pos <= end <= |s| && s[pos..end] == EncodeAll(ws)
    ensures var run := Replies(req, s, pos, []);
      && run == Done(end, PiecesIn(ws))
      && Seen(req.lib, req.skip, Ok(Client.Result(req, run.acc)), BufferAfter(req, buf, run))
         == Data(content + buf[|content|..])
  {
    hide ReplyTo, Replies, EncodeAll, Assemble, Rebuild, Table, Extras, SumExtras, PiecesIn;
    ReplyIsRead(req, s, pos, end, ws, content);
    if req.skip {
      SkippedReplyRebuilds(req.lib, req.opId, s, pos, end, ws, content, buf);
      WritesStayInside(req, s, pos, buf);
    } else {
      ReplyIsContent(req.lib, req.opId, ws, content, buf);
    }
    hide BufferAfter;
  }

  /** A `readinto` of an open disk, in either mode: the client consumes exactly the server's
      reply, and the caller ends up with the server's bytes. */
  lemma {:induction false} ReadIntoStep(p: Session, srv: Server, opId: nat, op: Op, s: Bytes, pos: nat,
                                        end: nat, next: Server)
    requires Sound(p, srv) && op.ReadIntoOp? && opId < U32_BOUND
    requires !Rejected(p.sectorSize, op) && InBounds(p.sectorSize, |srv.disk|, op)
    requires pos <= end <= |s|
    requires Answers(p.lib, srv, RequestOf(p, opId, op), Skips(op), next, s[pos..end])
    ensures var r := ArrayStep(srv.disk, p.sectorSize, op);
      && next == srv.(disk := r.disk)
      && Step(p, opId, op, s, pos) == Stepped(opId + 1, RequestOf(p, opId, op), end, r.answer)
  {
    hide PrepareRead, ReplyTo, Answers, EncodeAll, Step, RequestOf, FastLz.Contract, NeverRaises;
    hide Replies, BufferAfter, Seen, Client.Result, SumExtras, PiecesIn;
    var lo, n := op.start * p.sectorSize, op.num * p.sectorSize;
    var content := srv.disk[lo..lo + n];
    AtLeastOne(op.num, p.sectorSize);
    ReadIsSent(p, opId, op.start, op.num, |op.buf|);
    ReadRequest(p, opId, op);
    ReadReachesServer(p, opId, op.start, op.num, |op.buf|, srv, op.skip, next, s[pos..end]);
    var ws :| ReplyTo(p.lib, opId, ws, content) && AllSendable(ws)
      && (op.skip ==> SumExtras(PiecesIn(ws)) <= n) && s[pos..end] == EncodeAll(ws);
    ReplyIsSeen(Request(p.lib, opId, n, op.skip), s, pos, end, ws, content, op.buf);
    ReadIntoReturns(p, opId, op, s, pos, end, PiecesIn(ws), content);
  }

  /** `read` is a `readinto` a zeroed buffer of the requested size. */
  function IntoZeros(ss: nat, op: Op): Op
    requires op.ReadOp? && op.num >= 1
  {
    ReadIntoOp(op.start, op.num, Zeros(op.num * ss), false, false)
  }

  lemma {:induction false} ReadIsReadInto(p: Session, opId: nat, op: Op, s: Bytes, pos: nat)
    requires op.ReadOp? && op.num >= 1 && pos <= |s| && p.bufferSize >= 1
    ensures Step(p, opId, op, s, pos) == Step(p, opId, IntoZeros(p.sectorSize, op), s, pos)
    ensures RequestOf(p, opId, op) == RequestOf(p, opId, IntoZeros(p.sectorSize, op))
  {
    hide Client.ReadInto, Rebuild;
  }

  lemma {:induction false} ReadIsReadIntoOfArray(disk: Bytes, ss: nat, op: Op)
    requires op.ReadOp? && !Rejected(ss, op) && InBounds(ss, |disk|, op)
    ensures var into := IntoZeros(ss, op);
      && !Rejected(ss, into) && InBounds(ss, |disk|, into) && !Skips(op) && !Skips(into)
      && ArrayStep(disk, ss, op) == ArrayStep(disk, ss, into)
  {
    var lo, n := op.start * ss, op.num * ss;
    assert disk[lo..lo + n] + Zeros(n)[n..] == disk[lo..lo + n];
  }

  lemma {:induction false} AckIsAwaited(p: Session, opId: nat, op: Op, s: Bytes, pos: nat, end: nat,
                                        ack: AioFrame)
    requires p.bufferSize >= 1 && op.WriteOp? && !Rejected(p.sectorSize, op) && pos <= end <= |s|
    requires WriteFrames(p, opId, op.start * p.sectorSize, op.data, 0).error == None
    requires ack.Sendable() && ack.msgType == NFC_AIO_MSG_IO && ack.opId == opId && ack.extra == []
    requires s[pos..end] == ack.Encode()
    ensures RequestOf(p, opId, op)
         == EncodeAll(WriteFrames(p, opId, op.start * p.sectorSize, op.data, 0).frames)
    ensures Step(p, opId, op, s, pos) == Stepped(opId + 1, RequestOf(p, opId, op), end, Stored)
  {
    hide WriteFrames, EncodeAll, Client.RecvReply, AioFrame.Encode;
    assert |ack.Encode()| == ack.Size();
    assert end == pos + ack.Size();
    Client.RecvReplyOfFrame(s, pos, ack);
  }

  /** A write to an open disk: the client consumes exactly the server's acknowledgement, and
      the server has stored the data. */
  lemma {:induction false} WriteStepOnDisk(p: Session, srv: Server, opId: nat, op: Op, s: Bytes,
                                           pos: nat, end: nat, next: Server)
    requires Sound(p, srv) && op.WriteOp? && opId < U32_BOUND
    requires !Rejected(p.sectorSize, op) && InBounds(p.sectorSize, |srv.disk|, op)
    requires pos <= end <= |s|
    requires Answers(p.lib, srv, RequestOf(p, opId, op), Skips(op), next, s[pos..end])
    ensures var r := ArrayStep(srv.disk, p.sectorSize, op);
      && next == srv.(disk := r.disk)
      && Step(p, opId, op, s, pos) == Stepped(opId + 1, RequestOf(p, opId, op), end, r.answer)
  {
    hide WriteFrames, Answers, EncodeAll, AioFrame.Encode, Step, FastLz.Contract, NeverRaises;
    var lo, n := op.start * p.sectorSize, op.num * p.sectorSize;
    AtLeastOne(op.num, p.sectorSize);
    AllChunksEncode(p, op.data, 0);
    WriteSucceedsIff(p, opId, lo, op.data, 0);
    WriteRequest(p, opId, op);
    hide RequestOf;
    WriteReachesDisk(p, opId, lo, op.data, srv, Skips(op), next, s[pos..end]);
    var ack: AioFrame :| ack.Sendable() && ack.msgType == NFC_AIO_MSG_IO && ack.opId == opId
      && ack.extra == [] && s[pos..end] == ack.Encode();
    AckIsAwaited(p, opId, op, s, pos, end, ack);
  }

  lemma {:induction false} AtLeastOne(n: int, m: int)
    requires n >= 1 && m >= 1
    ensures n * m >= 1
  {
  }

  lemma {:induction false} WriteRequest(p: Session, opId: nat, op: Op)
    requires p.bufferSize >= 1 && op.WriteOp? && !Rejected(p.sectorSize, op)
    ensures RequestOf(p, opId, op)
         == EncodeAll(WriteFrames(p, opId, op.start * p.sectorSize, op.data, 0).frames)
  {
    hide WriteFrames, EncodeAll, Client.RecvReply;
  }

  /** One operation against a conforming server is one step of the array, and takes exactly
      the server's reply off the stream. */
  lemma {:induction false} OperationIsArrayStep(p: Session, srv: Server, opId: nat, op: Op, s: Bytes,
                                                pos: nat, end: nat, next: Server)
    requires Sound(p, srv) && opId < U32_BOUND
    requires !Rejected(p.sectorSize, op) && InBounds(p.sectorSize, |srv.disk|, op)
    requires pos <= end <= |s|
    requires Answers(p.lib, srv, RequestOf(p, opId, op), Skips(op), next, s[pos..end])
    ensures var r := ArrayStep(srv.disk, p.sectorSize, op);
      && next == srv.(disk := r.disk)
      && Step(p, opId, op, s, pos) == Stepped(opId + 1, RequestOf(p, opId, op), end, r.answer)
  {
    assert p.bufferSize >= 1;
    hide *;
    match op {
      case ReadOp(_, _) =>
        NotRejected(p.sectorSize, op);
        var into := IntoZeros(p.sectorSize, op);
        ReadIsReadIntoOfArray(srv.disk, p.sectorSize, op);
        ReadIsReadInto(p, opId, op, s, pos);
        IntoIsReadInto(p.sectorSize, op);
        ReadIntoStep(p, srv, opId, into, s, pos, end, next);
      case ReadIntoOp(_, _, _, _, _) => ReadIntoStep(p, srv, opId, op, s, pos, end, next);
      case WriteOp(_, _, _) => WriteStepOnDisk(p, srv, opId, op, s, pos, end, next);
    }
  }

  lemma {:induction false} NotRejected(ss: nat, op: Op)
    requires !Rejected(ss, op)
    ensures op.num >= 1 && (op.ReadIntoOp? ==> !op.readOnly && op.num * ss <= |op.buf|)
  {
  }

  lemma {:induction false} IntoIsReadInto(ss: nat, op: Op)
    requires op.ReadOp? && op.num >= 1
    ensures IntoZeros(ss, op).ReadIntoOp?
  {
  }

  // ---------- whole runs ----------

  /** The refinement: whatever conforming replies the server chooses, every call returns what
      it would on a plain array, the server ends with that array's contents, the operation id
      went up by the ids taken, and exactly the server's bytes are used up. */
  lemma {:induction false} RunRefinesArray(p: Session, srv: Server, opId: nat, ops: seq<Op>, s: Bytes,
                                           pos: nat, end: nat, last: Server)
    requires Sound(p, srv) && AllInBounds(p.sectorSize, |srv.disk|, ops)
    requires opId + IdsTaken(p.sectorSize, ops) <= U32_BOUND && pos <= end <= |s|
    requires Serves(p, srv, opId, ops, s[pos..end], last)
    ensures var plain, run := ArrayRun(srv.disk, p.sectorSize, ops), Run(p, opId, ops, s, pos);
      && run.answers == plain.answers && last == srv.(disk := plain.disk)
      && run.opId == opId + IdsTaken(p.sectorSize, ops) && run.pos == end
    decreases |ops|
  {
    hide Step, Answers, FastLz.Contract, NeverRaises, ArrayStep, RequestOf, Refusal;
    if ops != [] {
      var op := ops[0];
      var first := ArrayStep(srv.disk, p.sectorSize, op);
      assert InBounds(p.sectorSize, |srv.disk|, op);
      if Rejected(p.sectorSize, op) {
        RejectedStep(p, opId, op, s, pos);
        RejectedIsIdle(srv.disk, p.sectorSize, op);
        RunRefinesArray(p, srv, NextId(p.sectorSize, opId, op), ops[1..], s, pos, end, last);
      } else {
        var n, next := FirstAnswer(p, srv, opId, ops, s, pos, end, last);
        OperationIsArrayStep(p, srv, opId, op, s, pos, pos + n, next);
        RunRefinesArray(p, next, opId + 1, ops[1..], s, pos + n, end, last);
      }
    }
  }

  /** The server's answer to the first call, where it stands in the stream. */
  lemma {:induction false} FirstAnswer(p: Session, srv: Server, opId: nat, ops: seq<Op>, s: Bytes,
                                       pos: nat, end: nat, last: Server)
    returns (n: nat, next: Server)
    requires p.bufferSize >= 1 && ops != [] && !Rejected(p.sectorSize, ops[0])
    requires pos <= end <= |s| && Serves(p, srv, opId, ops, s[pos..end], last)
    ensures pos + n <= end
    ensures Answers(p.lib, srv, RequestOf(p, opId, ops[0]), Skips(ops[0]), next, s[pos..pos + n])
    ensures Serves(p, next, opId + 1, ops[1..], s[pos + n..end], last)
  {
    hide Answers, RequestOf;
    var t := s[pos..end];
    n, next :| n <= |t| && Answers(p.lib, srv, RequestOf(p, opId, ops[0]), Skips(ops[0]), next, t[..n])
      && Serves(p, next, opId + 1, ops[1..], t[n..], last);
    assert t[..n] == s[pos..pos + n] && t[n..] == s[pos + n..end];
  }

  lemma {:induction false} RejectedIsIdle(disk: Bytes, ss: nat, op: Op)
    requires Rejected(ss, op)
    ensures ArrayStep(disk, ss, op) == Array(disk, Raised(Refusal(ss, op).value))
  {
  }

  // ---------- what a read of the run returns ----------

  /** The operation stores a byte at `i`. */
  predicate Writes(ss: nat, op: Op, i: nat) {
    op.WriteOp? && !Rejected(ss, op) && op.start * ss <= i < op.start * ss + |op.data|
  }

  /** Of the operations, number `k - 1` is the last to store a byte at `i`; none does when `k`
      is 0. */
  ghost predicate LastWriter(ss: nat, ops: seq<Op>, i: nat, k: nat) {
    && k <= |ops| && (k > 0 ==> Writes(ss, ops[k - 1], i))
    && forall j :: k <= j < |ops| ==> !Writes(ss, ops[j], i)
  }

  /** That byte, or the one the disk held from the start. */
  function Latest(disk: Bytes, ss: nat, ops: seq<Op>, i: nat, k: nat): byte
    requires i < |disk| && k <= |ops| && (k > 0 ==> Writes(ss, ops[k - 1], i))
  {
    if k == 0 then disk[i] else ops[k - 1].data[i - ops[k - 1].start * ss]
  }

  lemma {:induction false} StoredByte(disk: Bytes, ss: nat, op: Op, i: nat)
    requires InBounds(ss, |disk|, op) && i < |disk|
    ensures ArrayStep(disk, ss, op).disk[i]
         == if Writes(ss, op, i) then op.data[i - op.start * ss] else disk[i]
  {
  }

  /** After any run, each byte of the array is that of the last write covering it. */
  lemma {:induction false} ArrayHoldsLatest(disk: Bytes, ss: nat, ops: seq<Op>, i: nat, k: nat)
    requires AllInBounds(ss, |disk|, ops) && i < |disk| && LastWriter(ss, ops, i, k)
    ensures ArrayRun(disk, ss, ops).disk[i] == Latest(disk, ss, ops, i, k)
    decreases |ops|
  {
    hide ArrayStep, Writes;
    if ops != [] {
      var after := ArrayStep(disk, ss, ops[0]).disk;
      assert InBounds(ss, |disk|, ops[0]);
      StoredByte(disk, ss, ops[0], i);
      ArrayHoldsLatest(after, ss, ops[1..], i, if k == 0 then 0 else k - 1);
    }
  }

  lemma {:induction false} AnswerAfterPrefix(disk: Bytes, ss: nat, ops: seq<Op>, r: nat)
    requires AllInBounds(ss, |disk|, ops) && r < |ops|
    ensures AllInBounds(ss, |disk|, ops[..r])
    ensures InBounds(ss, |disk|, ops[r])
    ensures ArrayRun(disk, ss, ops).answers[r]
         == ArrayStep(ArrayRun(disk, ss, ops[..r]).disk, ss, ops[r]).answer
    decreases r
  {
    hide ArrayStep, InBounds;
    if r > 0 {
      var after := ArrayStep(disk, ss, ops[0]).disk;
      assert InBounds(ss, |disk|, ops[0]);
      AnswerAfterPrefix(after, ss, ops[1..], r - 1);
      assert ops[..r][1..] == ops[1..][..r - 1];
    }
  }

  /** Against a conforming server, every byte that any read of a run returns is that of the
      last write before it covering the byte, or the disk's first one. */
  lemma {:induction false} ReadsReturnLatestWrite(p: Session, srv: Server, opId: nat, ops: seq<Op>,
                                                  s: Bytes, pos: nat, end: nat, last: Server,
                                                  r: nat, i: nat, k: nat)
    requires Sound(p, srv) && AllInBounds(p.sectorSize, |srv.disk|, ops)
    requires opId + IdsTaken(p.sectorSize, ops) <= U32_BOUND && pos <= end <= |s|
    requires Serves(p, srv, opId, ops, s[pos..end], last)
    requires r < |ops| && !ops[r].WriteOp? && !Rejected(p.sectorSize, ops[r])
    requires i < ops[r].num * p.sectorSize
    requires LastWriter(p.sectorSize, ops[..r], ops[r].start * p.sectorSize + i, k)
    ensures ops[r].start * p.sectorSize + i < |srv.disk|
    ensures var answer := Run(p, opId, ops, s, pos).answers[r];
      && answer.Data? && i < |answer.bytes|
      && answer.bytes[i]
         == Latest(srv.disk, p.sectorSize, ops[..r], ops[r].start * p.sectorSize + i, k)
  {
    hide Run, Serves, Sound, Writes, LastWriter;
    RunRefinesArray(p, srv, opId, ops, s, pos, end, last);
    AnswerAfterPrefix(srv.disk, p.sectorSize, ops, r);
    ArrayHoldsLatest(srv.disk, p.sectorSize, ops[..r], ops[r].start * p.sectorSize + i, k);
    hide ArrayRun;
  }

  // ---------- what the run puts on the wire ----------

  predicate Uses(fs: seq<AioFrame>, id: nat) {
    exists k :: 0 <= k < |fs| && fs[k].opId == id
  }

  /** The operation ids of the frames never go down, and lie in `lo` to `hi - 1`. */
  ghost predicate Rising(fs: seq<AioFrame>, lo: nat, hi: nat) {
    && lo <= hi
    && (forall k :: 0 <= k < |fs| ==> lo <= fs[k].opId < hi)
    && (forall j, k :: 0 <= j < k < |fs| ==> fs[j].opId <= fs[k].opId)
  }

  /** The ids of the frames are exactly these. */
  ghost predicate Exactly(fs: seq<AioFrame>, ids: set<nat>) {
    forall id: nat :: Uses(fs, id) <==> id in ids
  }

  lemma {:induction false} RisingConcat(a: seq<AioFrame>, b: seq<AioFrame>, lo: nat, mid: nat, hi: nat)
    requires Rising(a, lo, mid) && Rising(b, mid, hi)
    ensures Rising(a + b, lo, hi)
  {
  }

  lemma {:induction false} UsesConcat(a: seq<AioFrame>, b: seq<AioFrame>, id: nat)
    ensures Uses(a + b, id) <==> Uses(a, id) || Uses(b, id)
  {
    if k :| 0 <= k < |a| && a[k].opId == id {
      assert (a + b)[k].opId == id;
    }
    if k :| 0 <= k < |b| && b[k].opId == id {
      assert (a + b)[|a| + k].opId == id;
    }
  }

  lemma {:induction false} ExactlyConcat(a: seq<AioFrame>, x: set<nat>, b: seq<AioFrame>, y: set<nat>)
    requires Exactly(a, x) && Exactly(b, y)
    ensures Exactly(a + b, x + y)
  {
    hide Uses;
    forall id: nat
      ensures Uses(a + b, id) <==> id in x + y
    {
      UsesConcat(a, b, id);
    }
  }

  /** Well-formed IO frames, all under one operation id. */
  ghost predicate Carry(fs: seq<AioFrame>, opId: nat) {
    forall k :: 0 <= k < |fs| ==>
      WellFormed(fs[k]) && fs[k].msgType == 7 && fs[k].opId == opId
  }

  lemma {:induction false} FragmentsCarry(p: Session, opId: nat, offset: int, data: Bytes, at: nat)
    requires p.bufferSize >= 1 && at <= |data|
    ensures Carry(WriteFrames(p, opId, offset, data, at).frames, opId)
    decreases |data| - at
  {
    hide WriteFrame, WellFormed, GetU32, ToPiece;
    if at < |data| && WriteFrame(p, opId, offset, data, at).Ok? {
      WriteFrameShape(p, opId, offset, data, at);
      FragmentsCarry(p, opId, offset, data, at + |Chunk(p, data, at)|);
    }
  }

  /** Whatever the peer answers and however the operation ends, all it has sent are whole
      frames under the operation id it took, and nothing when it took none. */
  lemma {:induction false} StepSends(p: Session, opId: nat, op: Op, s: Bytes, pos: nat)
    returns (fs: seq<AioFrame>)
    requires p.bufferSize >= 1 && p.compression < U32_BOUND && pos <= |s|
    ensures Carry(fs, opId) && AllSendable(fs)
    ensures var r := Step(p, opId, op, s, pos);
      && r.sent == EncodeAll(fs) && opId <= r.opId <= opId + 1 && (r.opId == opId ==> fs == [])
  {
    hide Replies, BufferAfter, Seen, WriteFrames, EncodeAll, Parse, Client.RecvReplyTo, PrepareRead;
    match op {
      case ReadOp(start, num) =>
        if num >= 1 {
          fs := ReadSends(p, opId, start, num, num * p.sectorSize, false);
        } else {
          fs := NothingSent();
        }
      case ReadIntoOp(start, num, buf, readOnly, skip) =>
        fs := ReadSends(p, opId, start, num, |buf|, readOnly);
      case WriteOp(start, num, data) =>
        if num < 1 || |data| != num * p.sectorSize {
          fs := NothingSent();
        } else {
          fs := WriteFrames(p, opId, start * p.sectorSize, data, 0).frames;
          FragmentsCarry(p, opId, start * p.sectorSize, data, 0);
        }
    }
  }

  lemma {:induction false} NothingSent() returns (fs: seq<AioFrame>)
    ensures fs == [] && AllSendable(fs) && EncodeAll(fs) == []
  {
    fs := [];
  }

  lemma {:induction false} ReadSends(p: Session, opId: nat, start: int, num: int, bufLen: nat,
                                     readOnly: bool)
    returns (fs: seq<AioFrame>)
    requires p.compression < U32_BOUND
    ensures Carry(fs, opId) && AllSendable(fs)
    ensures match PrepareRead(p, opId, start, num, bufLen, readOnly)
            case Send(frame) => frame == EncodeAll(fs)
            case Refuse(_, _) => fs == [] && EncodeAll(fs) == []
  {
    hide PrepareRead, Parse, EncodeAll, GetU32, GetU64, WellFormed;
    if PrepareRead(p, opId, start, num, bufLen, readOnly).Send? {
      SentIsWritable(p, opId, start, num, bufLen, readOnly);
      var f := ReadFrame(p, opId, start, num, bufLen);
      EncodeOfParse(PrepareRead(p, opId, start, num, bufLen, false).frame);
      fs := [f];
      assert WellFormed(fs[0]);
    } else {
      fs := NothingSent();
    }
  }

  lemma {:induction false} SentIsWritable(p: Session, opId: nat, start: int, num: int, bufLen: nat,
                                          readOnly: bool)
    ensures PrepareRead(p, opId, start, num, bufLen, readOnly).Send? ==> !readOnly
  {
  }

  lemma {:induction false} CarryRises(fs: seq<AioFrame>, opId: nat, next: nat)
    requires Carry(fs, opId) && opId <= next <= opId + 1 && (next == opId ==> fs == [])
    ensures AllWellFormed(fs) && Rising(fs, opId, next)
    ensures fs != [] ==> Exactly(fs, {opId})
  {
    if fs != [] {
      assert fs[0].opId == opId;
    }
  }

  /** Whatever the peer answers, a run puts whole frames on the wire, under operation ids that
      never go down and that the run has passed when it ends: no id is ever used again. */
  lemma {:induction false} RunSends(p: Session, opId: nat, ops: seq<Op>, s: Bytes, pos: nat)
    returns (fs: seq<AioFrame>)
    requires p.bufferSize >= 1 && p.compression < U32_BOUND && pos <= |s|
    ensures AllWellFormed(fs) && AllSendable(fs) && Rising(fs, opId, Run(p, opId, ops, s, pos).opId)
    ensures Run(p, opId, ops, s, pos).sent == EncodeAll(fs)
    ensures Parse(Run(p, opId, ops, s, pos).sent) == Some(fs)
    decreases |ops|
  {
    hide Step, EncodeAll, WellFormed, Carry, Parse, Rising;
    if ops == [] {
      fs := NothingSent();
      CarryNone(opId);
      CarryRises(fs, opId, opId);
    } else {
      var first := Step(p, opId, ops[0], s, pos);
      var a := StepSends(p, opId, ops[0], s, pos);
      CarryRises(a, opId, first.opId);
      var b := RunSends(p, first.opId, ops[1..], s, first.pos);
      fs := a + b;
      EncodeAllConcat(a, b);
      RisingConcat(a, b, opId, first.opId, Run(p, first.opId, ops[1..], s, first.pos).opId);
    }
    ParseOfEncode(fs);
  }

  lemma {:induction false} CarryNone(opId: nat)
    ensures Carry([], opId)
  {
  }

  lemma {:induction false} SentIsSome(fs: seq<AioFrame>)
    requires AllSendable(fs) && EncodeAll(fs) != []
    ensures fs != []
  {
  }

  lemma {:induction false} RequestIsSome(p: Session, srv: Server, opId: nat, op: Op, next: Server,
                                         reply: Bytes)
    requires p.bufferSize >= 1 && Answers(p.lib, srv, RequestOf(p, opId, op), Skips(op), next, reply)
    ensures RequestOf(p, opId, op) != []
  {
    hide RequestOf;
    assert Parse([]) == Some([]);
  }

  /** And against a conforming server those ids are exactly the ones given to the operations
      that are not refused. */
  lemma {:induction false} RunUsesIds(p: Session, srv: Server, opId: nat, ops: seq<Op>, s: Bytes,
                                      pos: nat, end: nat, last: Server)
    returns (fs: seq<AioFrame>)
    requires Sound(p, srv) && AllInBounds(p.sectorSize, |srv.disk|, ops)
    requires opId + IdsTaken(p.sectorSize, ops) <= U32_BOUND && pos <= end <= |s|
    requires Serves(p, srv, opId, ops, s[pos..end], last)
    ensures AllWellFormed(fs) && AllSendable(fs) && Run(p, opId, ops, s, pos).sent == EncodeAll(fs)
    ensures Rising(fs, opId, opId + IdsTaken(p.sectorSize, ops))
    ensures Exactly(fs, IdsSent(p.sectorSize, opId, ops))
    ensures forall k :: 0 <= k < |fs| ==> fs[k].msgType == 7
    decreases |ops|
  {
    hide *;
    OpenSession(p, srv);
    if ops == [] {
      NoCalls(p, opId, s, pos);
      fs := NothingSent();
    } else {
      var op, ss, rest := ops[0], p.sectorSize, ops[1..];
      BoundsCons(ss, |srv.disk|, ops);
      IdsCons(ss, opId, ops);
      RunCons(p, opId, ops, s, pos);
      if Rejected(ss, op) {
        var next := NextId(ss, opId, op);
        RejectedStep(p, opId, op, s, pos);
        ServesRejected(p, srv, opId, ops, s[pos..end], last);
        fs := RunUsesIds(p, srv, next, rest, s, pos, end, last);
        assert [] + EncodeAll(fs) == EncodeAll(fs);
        RisesFurther(fs, opId, next, next + IdsTaken(ss, rest));
      } else {
        var n, next := FirstAnswer(p, srv, opId, ops, s, pos, end, last);
        OperationIsArrayStep(p, srv, opId, op, s, pos, pos + n, next);
        var a := AnsweredSends(p, srv, opId, op, s, pos, pos + n, next);
        SameSession(p, srv, next, opId, op);
        var b := RunUsesIds(p, next, opId + 1, rest, s, pos + n, end, last);
        fs := InARow(a, {opId}, b, IdsSent(ss, opId + 1, rest), opId, opId + 1,
                     opId + 1 + IdsTaken(ss, rest));
      }
    }
  }

  lemma {:induction false} NoCalls(p: Session, opId: nat, s: Bytes, pos: nat)
    requires pos <= |s| && p.bufferSize >= 1
    ensures Run(p, opId, [], s, pos).sent == [] && IdsTaken(p.sectorSize, []) == 0
    ensures Rising([], opId, opId) && IdsSent(p.sectorSize, opId, []) == {} && Exactly([], {})
    ensures AllWellFormed([])
  {
  }

  lemma {:induction false} OpenSession(p: Session, srv: Server)
    requires Sound(p, srv)
    ensures p.bufferSize >= 1 && p.sectorSize >= 1 && NeverRaises(p.lib)
  {
  }

  lemma {:induction false} BoundsCons(ss: nat, size: nat, ops: seq<Op>)
    requires ops != [] && AllInBounds(ss, size, ops)
    ensures InBounds(ss, size, ops[0]) && AllInBounds(ss, size, ops[1..])
  {
    hide InBounds;
  }

  lemma {:induction false} IdsCons(ss: nat, opId: nat, ops: seq<Op>)
    requires ops != []
    ensures opId + IdsTaken(ss, ops) == NextId(ss, opId, ops[0]) + IdsTaken(ss, ops[1..])
    ensures opId <= NextId(ss, opId, ops[0])
    ensures Rejected(ss, ops[0]) ==>
      IdsSent(ss, opId, ops) == IdsSent(ss, NextId(ss, opId, ops[0]), ops[1..])
    ensures !Rejected(ss, ops[0]) ==> NextId(ss, opId, ops[0]) == opId + 1
    ensures !Rejected(ss, ops[0]) ==> IdsSent(ss, opId, ops) == {opId} + IdsSent(ss, opId + 1, ops[1..])
  {
    hide Refusal;
  }

  lemma {:induction false} RunCons(p: Session, opId: nat, ops: seq<Op>, s: Bytes, pos: nat)
    requires ops != [] && pos <= |s| && p.bufferSize >= 1
    ensures var first := Step(p, opId, ops[0], s, pos);
      Run(p, opId, ops, s, pos).sent == first.sent + Run(p, first.opId, ops[1..], s, first.pos).sent
  {
    hide Step;
  }

  lemma {:induction false} ServesRejected(p: Session, srv: Server, opId: nat, ops: seq<Op>, s: Bytes,
                                          last: Server)
    requires p.bufferSize >= 1 && ops != [] && Rejected(p.sectorSize, ops[0])
    requires Serves(p, srv, opId, ops, s, last)
    ensures Serves(p, srv, NextId(p.sectorSize, opId, ops[0]), ops[1..], s, last)
  {
    hide Answers, RequestOf, Refusal;
  }

  /** A session goes on with the server where a step has left it. */
  lemma {:induction false} SameSession(p: Session, srv: Server, next: Server, opId: nat, op: Op)
    requires Sound(p, srv) && InBounds(p.sectorSize, |srv.disk|, op)
    requires next == srv.(disk := ArrayStep(srv.disk, p.sectorSize, op).disk)
    ensures Sound(p, next) && |next.disk| == |srv.disk|
  {
    hide FastLz.Contract, NeverRaises, ArrayStep;
  }

  lemma {:induction false} InARow(a: seq<AioFrame>, x: set<nat>, b: seq<AioFrame>, y: set<nat>,
                                  lo: nat, mid: nat, hi: nat)
    returns (fs: seq<AioFrame>)
    requires AllWellFormed(a) && AllSendable(a) && AllWellFormed(b) && AllSendable(b)
    requires Rising(a, lo, mid) && Exactly(a, x) && Rising(b, mid, hi) && Exactly(b, y)
    requires forall k :: 0 <= k < |a| ==> a[k].msgType == 7
    requires forall k :: 0 <= k < |b| ==> b[k].msgType == 7
    ensures AllWellFormed(fs) && AllSendable(fs) && EncodeAll(fs) == EncodeAll(a) + EncodeAll(b)
    ensures Rising(fs, lo, hi) && Exactly(fs, x + y)
    ensures forall k :: 0 <= k < |fs| ==> fs[k].msgType == 7
  {
    hide *;
    fs := a + b;
    EncodeAllConcat(a, b);
    RisingConcat(a, b, lo, mid, hi);
    ExactlyConcat(a, x, b, y);
    WellFormedConcat(a, b);
  }

  lemma {:induction false} RisesFurther(fs: seq<AioFrame>, lo: nat, mid: nat, hi: nat)
    requires Rising(fs, mid, hi) && lo <= mid
    ensures Rising(fs, lo, hi)
  {
  }

  /** No id is skipped exactly when no write is refused for arguments that do not pack. */
  lemma {:induction false} NoIdIsSkipped(ss: nat, opId: nat, ops: seq<Op>)
    ensures IdsSent(ss, opId, ops) == Span(opId, opId + IdsTaken(ss, ops)) <==>
      forall k :: 0 <= k < |ops| ==> !Silent(ss, ops[k])
  {
    hide Silent;
    IdsAreTaken(ss, opId, ops);
    SubsetSize(IdsSent(ss, opId, ops), Span(opId, opId + IdsTaken(ss, ops)));
  }

  lemma {:induction false} IdsAreTaken(ss: nat, opId: nat, ops: seq<Op>)
    ensures IdsSent(ss, opId, ops) <= Span(opId, opId + IdsTaken(ss, ops))
    ensures |IdsSent(ss, opId, ops)| <= IdsTaken(ss, ops)
    ensures |IdsSent(ss, opId, ops)| == IdsTaken(ss, ops) <==>
      forall k :: 0 <= k < |ops| ==> !Silent(ss, ops[k])
    decreases |ops|
  {
    hide Span, Refusal;
    if ops != [] {
      var next := NextId(ss, opId, ops[0]);
      IdsAreTaken(ss, next, ops[1..]);
      var rest := IdsSent(ss, next, ops[1..]);
      SilentCons(ss, ops);
      assert !Rejected(ss, ops[0]) ==> opId !in rest && |{opId} + rest| == 1 + |rest|;
      assert Rejected(ss, ops[0]) ==> {} + rest == rest;
    }
  }

  lemma {:induction false} SilentCons(ss: nat, ops: seq<Op>)
    requires ops != []
    ensures (forall k :: 0 <= k < |ops| ==> !Silent(ss, ops[k])) <==>
      !Silent(ss, ops[0]) && forall k :: 0 <= k < |ops[1..]| ==> !Silent(ss, ops[1..][k])
  {
    hide Silent;
    if !Silent(ss, ops[0]) && forall k :: 0 <= k < |ops[1..]| ==> !Silent(ss, ops[1..][k]) {
      forall k | 0 <= k < |ops|
        ensures !Silent(ss, ops[k])
      {
        assert k > 0 ==> ops[k] == ops[1..][k - 1];
      }
    }
  }

  lemma {:induction false} WellFormedConcat(a: seq<AioFrame>, b: seq<AioFrame>)
    requires AllWellFormed(a) && AllWellFormed(b)
    ensures AllWellFormed(a + b)
  {
  }

  lemma {:induction false} AnsweredSends(p: Session, srv: Server, opId: nat, op: Op, s: Bytes,
                                         pos: nat, end: nat, next: Server)
    returns (fs: seq<AioFrame>)
    requires Sound(p, srv) && opId < U32_BOUND && pos <= end <= |s|
    requires !Rejected(p.sectorSize, op) && InBounds(p.sectorSize, |srv.disk|, op)
    requires Answers(p.lib, srv, RequestOf(p, opId, op), Skips(op), next, s[pos..end])
    ensures AllWellFormed(fs) && AllSendable(fs) && Step(p, opId, op, s, pos).sent == EncodeAll(fs)
    ensures Rising(fs, opId, opId + 1) && Exactly(fs, {opId})
    ensures forall k :: 0 <= k < |fs| ==> fs[k].msgType == 7
  {
    hide Step, EncodeAll, Answers, RequestOf, ArrayStep, FastLz.Contract, NeverRaises, Rejected;
    hide InBounds, Rising, Exactly, WellFormed;
    fs := StepSends(p, opId, op, s, pos);
    OperationIsArrayStep(p, srv, opId, op, s, pos, end, next);
    RequestIsSome(p, srv, opId, op, next, s[pos..end]);
    SentIsSome(fs);
    CarryRises(fs, opId, opId + 1);
  }
}
