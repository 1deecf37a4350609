/** Replies a server may give to a read (docs/nfc_read.md): fragments that tile the request,
    in any order, each raw or compressed on its own. A read of such a reply returns the
    content; the fragments of a write, in any order, are such a reply. */
module Conforming {
  import opened Wire
  import opened Frames
  import opened Pieces
  import opened Reading
  import opened Requests
  import opened SkipMode

  ghost predicate AllReplies(opId: nat, fs: seq<AioFrame>) {
    forall k :: 0 <= k < |fs| ==> IsReply(opId, fs[k])
  }

  /** `fs` is a reply carrying `content`: every fragment has its own part of it, no two
      overlap, and together they cover it. */
  ghost predicate ReplyTo(lib: FastLz.Library, opId: nat, fs: seq<AioFrame>, content: Bytes) {
    && AllReplies(opId, fs)
    && PiecesOf(lib, PiecesIn(fs), content)
    && Disjoint(PiecesIn(fs))
    && Covered(PiecesIn(fs)) == Span(0, |content|)
  }

  // ---------- prefixes of a reply ----------

  lemma {:induction false} SumOfPrefix(ps: seq<Piece>, k: nat)
    requires k <= |ps| && forall i :: 0 <= i < |ps| ==> ps[i].chunkLen >= 1
    ensures SumChunks(ps[..k]) + (|ps| - k) <= SumChunks(ps)
    decreases |ps|
  {
    if k < |ps| {
      SumOfPrefix(Init(ps), k);
      assert Init(ps)[..k] == ps[..k];
    } else {
      assert ps[..k] == ps;
    }
  }

  lemma {:induction false} NewDest(ps: seq<Piece>, k: nat)
    requires k < |ps| && Disjoint(ps) && forall i :: 0 <= i < |ps| ==> ps[i].chunkLen >= 1
    ensures ps[k].dest !in Dests(ps[..k])
  {
    forall p | p in ps[..k]
      ensures p.dest != ps[k].dest
    {
      var i :| 0 <= i < k && ps[..k][i] == p;
      assert Apart(ps[i], ps[k]);
    }
  }

  lemma {:induction false} PiecesDrop(fs: seq<AioFrame>, k: nat)
    requires k < |fs|
    ensures PiecesIn(fs)[..k] + [ToPiece(fs[k])] == PiecesIn(fs)[..k + 1]
  {
    PieceAt(fs, k);
  }

  lemma {:induction false} ReplyPieceOk(req: Request, f: AioFrame, content: Bytes)
    requires IsReply(req.opId, f) && PieceOf(req.lib, ToPiece(f), content)
    requires req.length == |content|
    ensures PieceOk(req, ToPiece(f))
  {
  }

  lemma {:induction false} ReplyStepOk(req: Request, fs: seq<AioFrame>, content: Bytes, k: nat)
    requires ReplyTo(req.lib, req.opId, fs, content) && req.length == |content| && k < |fs|
    requires req.skip ==> SumExtras(PiecesIn(fs)) <= req.length
    ensures SumChunks(PiecesIn(fs)[..k]) < req.length
    ensures Acceptable(req, PiecesIn(fs)[..k], fs[k])
  {
    var ps := PiecesIn(fs);
    assert forall i :: 0 <= i < |ps| ==> PieceOf(req.lib, ps[i], content);
    CountingIsCoverage(ps, |content|);
    SumOfPrefix(ps, k);
    NewDest(ps, k);
    PieceAt(fs, k);
    ReplyPieceOk(req, fs[k], content);
    ExtrasOfPrefix(ps[..k + 1], ps);
    SumExtrasStep(ps, k);
  }

  lemma {:induction false} ReplyIsAcceptable(req: Request, fs: seq<AioFrame>, content: Bytes, k: nat)
    requires ReplyTo(req.lib, req.opId, fs, content) && req.length == |content| && k <= |fs|
    requires req.skip ==> SumExtras(PiecesIn(fs)) <= req.length
    ensures AcceptableRun(req, PiecesIn(fs)[..k], fs[k..])
    decreases |fs| - k
  {
    hide IsReply, ToPiece, Acceptable, Covered, Span, Decoded;
    var ps := PiecesIn(fs);
    if k < |fs| {
      ReplyStepOk(req, fs, content, k);
      ReplyIsAcceptable(req, fs, content, k + 1);
      PiecesDrop(fs, k);
      hide *;
      AcceptableStep(req, ps[..k], fs[k..], fs[k + 1..], ps[..k + 1]);
    } else {
      assert forall i :: 0 <= i < |ps| ==> PieceOf(req.lib, ps[i], content);
      CountingIsCoverage(ps, |content|);
      assert ps[..k] == ps && fs[k..] == [];
    }
  }

  lemma {:induction false} AcceptableStep(req: Request, acc: seq<Piece>, fs: seq<AioFrame>,
                                          rest: seq<AioFrame>, next: seq<Piece>)
    requires fs != [] && rest == fs[1..] && next == acc + [ToPiece(fs[0])]
    requires SumChunks(acc) < req.length && Acceptable(req, acc, fs[0])
    requires AcceptableRun(req, next, rest)
    ensures AcceptableRun(req, acc, fs)
  {
  }

  /** A conforming reply is read completely and exactly: the read returns at the reply's last
      byte having accepted each of its fragments. */
  lemma {:induction false} ReplyIsRead(req: Request, s: Bytes, pos: nat, end: nat,
                                       fs: seq<AioFrame>, content: Bytes)
    requires ReplyTo(req.lib, req.opId, fs, content) && req.length == |content|
    requires req.skip ==> SumExtras(PiecesIn(fs)) <= req.length
    requires AllSendable(fs) && pos <= end <= |s| && s[pos..end] == EncodeAll(fs)
    ensures Replies(req, s, pos, []) == Done(end, PiecesIn(fs))
  {
    ReplyIsAcceptable(req, fs, content, 0);
    assert PiecesIn(fs)[..0] == [] && fs[0..] == fs;
    RepliesOfFrames(req, s, pos, end, [], fs);
    assert [] + PiecesIn(fs) == PiecesIn(fs);
  }

  /** And the buffer then holds the content, in place of its first `length` bytes. */
  lemma {:induction false} ReplyIsContent(lib: FastLz.Library, opId: nat, fs: seq<AioFrame>,
                                          content: Bytes, buf: Bytes)
    requires ReplyTo(lib, opId, fs, content) && |content| <= |buf|
    ensures AllDecode(lib, PiecesIn(fs))
    ensures Assemble(lib, buf, PiecesIn(fs)) == content + buf[|content|..]
  {
    var ps := PiecesIn(fs);
    assert forall i :: 0 <= i < |ps| ==> PieceOf(lib, ps[i], content);
    AssembleFrame(lib, buf, ps, |content|);
    forall i | 0 <= i < |content|
      ensures Assemble(lib, buf, ps)[i] == content[i]
    {
      assert i in Span(0, |content|);
      AssembleCovered(lib, buf, ps, content, i);
    }
    hide *;
    FromHalves(Assemble(lib, buf, ps), content, buf[|content|..]);
  }

  lemma {:induction false} FromHalves(b: Bytes, front: Bytes, back: Bytes)
    requires |b| == |front| + |back| && b[|front|..] == back
    requires forall i :: 0 <= i < |front| ==> b[i] == front[i]
    ensures b == front + back
  {
    assert b[..|front|] == front;
    assert b == b[..|front|] + b[|front|..];
  }

  /** A skipping read of a conforming reply whose extras fit the request, followed by the
      caller's rebuild, returns the content too. */
  lemma {:induction false} SkippedReplyRebuilds(lib: FastLz.Library, opId: nat, s: Bytes, pos: nat,
                                                end: nat, fs: seq<AioFrame>, content: Bytes, buf: Bytes)
    requires ReplyTo(lib, opId, fs, content) && SumExtras(PiecesIn(fs)) <= |content| <= |buf|
    requires AllSendable(fs) && pos <= end <= |s| && s[pos..end] == EncodeAll(fs)
    ensures var run := Replies(Request(lib, opId, |content|, true), s, pos, []);
      && run == Done(end, PiecesIn(fs))
      && Rebuild(lib, BufferAfter(Request(lib, opId, |content|, true), buf, run),
                 ReadResult(|content|, SumExtras(run.acc), Table(run.acc))) == Ok(content)
  {
    hide ReplyTo, Replies, EncodeAll, Rebuild, Table, Assemble;
    var skip, plain := Request(lib, opId, |content|, true), Request(lib, opId, |content|, false);
    ReplyIsRead(skip, s, pos, end, fs, content);
    ReplyIsRead(plain, s, pos, end, fs, content);
    ReplyIsContent(lib, opId, fs, content, Zeros(|content|));
    assert content + Zeros(|content|)[|content|..] == content;
    SkipThenRebuildIsRead(plain, s, pos, buf);
  }

  lemma {:induction false} ExtrasBelowChunks(ps: seq<Piece>)
    requires forall k :: 0 <= k < |ps| ==> |ps[k].extra| <= ps[k].chunkLen
    ensures SumExtras(ps) <= SumChunks(ps)
  {
    if ps != [] {
      ExtrasBelowChunks(Init(ps));
      assert Last(ps) == ps[|ps| - 1];
    }
  }

  /** A server that compresses a fragment only where that shrinks it sends a reply whose extras
      fit the request. */
  lemma {:induction false} ShrunkRepliesPack(lib: FastLz.Library, opId: nat, fs: seq<AioFrame>,
                                             content: Bytes)
    requires ReplyTo(lib, opId, fs, content)
    requires forall k :: 0 <= k < |fs| ==> |ToPiece(fs[k]).extra| <= ToPiece(fs[k]).chunkLen
    ensures SumExtras(PiecesIn(fs)) <= |content|
  {
    hide ToPiece, IsReply, Decoded, SumExtras, SumChunks, Covered, Span;
    var ps := PiecesIn(fs);
    forall k | 0 <= k < |ps|
      ensures |ps[k].extra| <= ps[k].chunkLen
    {
      PieceAt(fs, k);
    }
    assert forall k :: 0 <= k < |ps| ==> PieceOf(lib, ps[k], content);
    CountingIsCoverage(ps, |content|);
    ExtrasBelowChunks(ps);
  }

  // ---------- write fragments as a reply ----------

  function Relabel(fs: seq<AioFrame>, opId: nat): seq<AioFrame> {
    seq(|fs|, i requires 0 <= i < |fs| => fs[i].(opId := opId))
  }

  lemma {:induction false} WritePieceAt(p: Session, opId: nat, offset: int, data: Bytes, k: nat)
    requires p.bufferSize >= 1 && FastLz.Contract(p.lib)
    requires WriteFrames(p, opId, offset, data, 0).error == None
    requires k < |WriteFrames(p, opId, offset, data, 0).frames|
    ensures var fs := WriteFrames(p, opId, offset, data, 0).frames;
      && IsReply(opId, fs[k]) && PieceOf(p.lib, PiecesIn(fs)[k], data)
      && PiecesIn(fs)[k].dest == k * p.bufferSize && PiecesIn(fs)[k].chunkLen <= p.bufferSize
  {
    hide WriteFrame, WriteFrames, Encode, IsReply, PieceOf, ToPiece, WellFormed, PiecesIn;
    var fs := WriteFrames(p, opId, offset, data, 0).frames;
    WriteFrameAt(p, opId, offset, data, 0, k, k * p.bufferSize);
    WriteFrameShape(p, opId, offset, data, k * p.bufferSize);
    WritePieceOf(p, opId, offset, data, k * p.bufferSize);
    PieceAt(fs, k);
    assert |Chunk(p, data, k * p.bufferSize)| <= p.bufferSize;
    hide *;
  }

  lemma {:induction false} GridIsDisjoint(ps: seq<Piece>, m: nat)
    requires forall k :: 0 <= k < |ps| ==> ps[k].dest == k * m && ps[k].chunkLen <= m
    ensures Disjoint(ps)
  {
    forall i, j | 0 <= i < j < |ps|
      ensures Apart(ps[i], ps[j])
    {
      Monotone(i + 1, j, m);
      TimesStep(i, m);
    }
  }

  /** The fragments of a write are a reply carrying the written data. */
  lemma {:induction false} WriteIsReply(p: Session, opId: nat, offset: int, data: Bytes)
    requires p.bufferSize >= 1 && FastLz.Contract(p.lib)
    requires WriteFrames(p, opId, offset, data, 0).error == None
    ensures ReplyTo(p.lib, opId, WriteFrames(p, opId, offset, data, 0).frames, data)
  {
    var fs := WriteFrames(p, opId, offset, data, 0).frames;
    var ps := PiecesIn(fs);
    forall k | 0 <= k < |fs|
      ensures IsReply(opId, fs[k]) && PieceOf(p.lib, ps[k], data)
      ensures ps[k].dest == k * p.bufferSize && ps[k].chunkLen <= p.bufferSize
    {
      WritePieceAt(p, opId, offset, data, k);
    }
    WriteSums(p, opId, offset, data, 0);
    hide WriteFrames;
    hide PiecesIn;
    GridIsDisjoint(ps, p.bufferSize);
    CountingIsCoverage(ps, |data|);
  }

  lemma {:induction false} Monotone(a: nat, b: nat, m: nat)
    requires a <= b
    ensures a * m <= b * m
  {
  }

  /** Being a reply does not depend on the order of the fragments. */
  lemma {:induction false} ReplyInAnyOrder(lib: FastLz.Library, opId: nat, fs: seq<AioFrame>,
                                           gs: seq<AioFrame>, content: Bytes)
    requires ReplyTo(lib, opId, fs, content) && multiset(gs) == multiset(fs)
    ensures ReplyTo(lib, opId, gs, content)
    ensures SumExtras(PiecesIn(gs)) == SumExtras(PiecesIn(fs))
  {
    var ps, qs := PiecesIn(fs), PiecesIn(gs);
    forall k | 0 <= k < |gs|
      ensures IsReply(opId, gs[k]) && PieceOf(lib, qs[k], content)
    {
      var i := IndexIn(gs, fs, k);
      PieceAt(fs, i);
      PieceAt(gs, k);
    }
    forall i, j | 0 <= i < j < |gs|
      ensures Apart(qs[i], qs[j])
    {
      var a, b := TwoIndices(gs, fs, i, j);
      PieceAt(fs, a);
      PieceAt(fs, b);
      PieceAt(gs, i);
      PieceAt(gs, j);
      assert PieceOf(lib, ps[a], content) && PieceOf(lib, ps[b], content);
      assert a < b ==> Apart(ps[a], ps[b]);
      assert b < a ==> Apart(ps[b], ps[a]);
    }
    SumsOfMultiset(fs, gs);
    assert forall i :: 0 <= i < |ps| ==> PieceOf(lib, ps[i], content);
    CountingIsCoverage(ps, |content|);
    CountingIsCoverage(qs, |content|);
  }

  lemma {:induction false} IndexIn<T>(gs: seq<T>, fs: seq<T>, k: nat) returns (i: nat)
    requires multiset(gs) == multiset(fs) && k < |gs|
    ensures i < |fs| && fs[i] == gs[k]
  {
    assert gs[k] in multiset(gs);
    assert gs[k] in fs;
    i :| 0 <= i < |fs| && fs[i] == gs[k];
  }

  lemma {:induction false} Remove<T>(s: seq<T>, i: nat)
    requires i < |s|
    ensures multiset(s) == multiset(s[..i] + s[i + 1..]) + multiset{s[i]}
  {
    assert s == s[..i] + [s[i]] + s[i + 1..];
  }

  lemma {:induction false} RemoveBoth<T>(gs: seq<T>, i: nat, fs: seq<T>, a: nat)
    requires multiset(gs) == multiset(fs) && i < |gs| && a < |fs| && gs[i] == fs[a]
    ensures multiset(gs[..i] + gs[i + 1..]) == multiset(fs[..a] + fs[a + 1..])
  {
    Remove(gs, i);
    Remove(fs, a);
    assert multiset(gs[..i] + gs[i + 1..]) == multiset(gs) - multiset{gs[i]};
    assert multiset(fs[..a] + fs[a + 1..]) == multiset(fs) - multiset{fs[a]};
  }

  lemma {:induction false} TwoIndices<T>(gs: seq<T>, fs: seq<T>, i: nat, j: nat)
    returns (a: nat, b: nat)
    requires multiset(gs) == multiset(fs) && i < j < |gs|
    ensures a < |fs| && b < |fs| && a != b && fs[a] == gs[i] && fs[b] == gs[j]
  {
    a := IndexIn(gs, fs, i);
    RemoveBoth(gs, i, fs, a);
    var gr, fr := gs[..i] + gs[i + 1..], fs[..a] + fs[a + 1..];
    assert gr[j - 1] == gs[j];
    var c := IndexIn(gr, fr, j - 1);
    b := if c < a then c else c + 1;
  }

  lemma {:induction false} SumsOfRemove(fs: seq<AioFrame>, i: nat)
    requires i < |fs|
    ensures var rest := PiecesIn(fs[..i] + fs[i + 1..]);
      && SumChunks(PiecesIn(fs)) == ToPiece(fs[i]).chunkLen + SumChunks(rest)
      && SumExtras(PiecesIn(fs)) == |ToPiece(fs[i]).extra| + SumExtras(rest)
    decreases i
  {
    var rest := fs[..i] + fs[i + 1..];
    SumChunksCons(ToPiece(fs[0]), PiecesIn(fs[1..]));
    if i == 0 {
      assert rest == fs[1..];
    } else {
      SumsOfRemove(fs[1..], i - 1);
      assert rest[1..] == fs[1..][..i - 1] + fs[1..][i - 1 + 1..];
      SumChunksCons(ToPiece(rest[0]), PiecesIn(rest[1..]));
    }
  }

  lemma {:induction false} SumsOfMultiset(fs: seq<AioFrame>, gs: seq<AioFrame>)
    requires multiset(fs) == multiset(gs)
    ensures SumChunks(PiecesIn(fs)) == SumChunks(PiecesIn(gs))
    ensures SumExtras(PiecesIn(fs)) == SumExtras(PiecesIn(gs))
    decreases |fs|
  {
    hide *;
    if fs == [] {
      assert |multiset(gs)| == |gs| == 0;
    } else {
      var i, gr := FirstTakenOut(fs, gs);
      SumsOfMultiset(fs[1..], gr);
      SumsOfRemove(fs, 0);
      SumsOfRemove(gs, i);
      WithoutFirst(fs);
    }
  }

  lemma {:induction false} FirstTakenOut<T>(fs: seq<T>, gs: seq<T>) returns (i: nat, gr: seq<T>)
    requires multiset(fs) == multiset(gs) && fs != []
    ensures i < |gs| && gs[i] == fs[0] && gr == gs[..i] + gs[i + 1..]
    ensures multiset(fs[1..]) == multiset(gr)
  {
    i := IndexIn(fs, gs, 0);
    gr := gs[..i] + gs[i + 1..];
    SameRest(fs, fs[1..], gs, i, gr);
  }

  lemma {:induction false} SameRest<T>(fs: seq<T>, fr: seq<T>, gs: seq<T>, i: nat, gr: seq<T>)
    requires multiset(fs) == multiset(gs) && fs != [] && i < |gs| && gs[i] == fs[0]
    requires fr == fs[1..] && gr == gs[..i] + gs[i + 1..]
    ensures multiset(fr) == multiset(gr)
  {
    assert fs == [fs[0]] + fr;
    Remove(gs, i);
    calc {
      multiset(fr);
      multiset(fs) - multiset{fs[0]};
      multiset(gs) - multiset{gs[i]};
      multiset(gr);
    }
  }

  lemma {:induction false} WithoutFirst<T>(s: seq<T>)
    requires s != []
    ensures s[..0] + s[0 + 1..] == s[1..]
  {
  }

  lemma {:induction false} RelabelledPieces(fs: seq<AioFrame>, opId: nat)
    ensures PiecesIn(Relabel(fs, opId)) == PiecesIn(fs)
  {
    forall k | 0 <= k < |fs|
      ensures PiecesIn(Relabel(fs, opId))[k] == PiecesIn(fs)[k]
    {
      PieceAt(fs, k);
      PieceAt(Relabel(fs, opId), k);
    }
  }

  /** Loopback: the fragments of any write, in any order and under a read's operation id,
      are accepted by that read in either mode. Decompressing, the buffer then holds the
      written data; skipping, the caller's rebuild of the packed buffer returns it. */
  lemma {:induction false} Loopback(p: Session, writeOp: nat, offset: int, data: Bytes,
                                    gs: seq<AioFrame>, readOp: nat, s: Bytes, pos: nat, end: nat,
                                    skip: bool, buf: Bytes)
    requires p.bufferSize >= 1 && FastLz.Contract(p.lib) && readOp < U32_BOUND
    requires WriteFrames(p, writeOp, offset, data, 0).error == None
    requires multiset(gs) == multiset(WriteFrames(p, writeOp, offset, data, 0).frames)
    requires AllSendable(Relabel(gs, readOp)) && |data| <= |buf|
    requires pos <= end <= |s| && s[pos..end] == EncodeAll(Relabel(gs, readOp))
    ensures var req := Request(p.lib, readOp, |data|, skip);
      var run := Replies(req, s, pos, []);
      && run == Done(end, PiecesIn(gs)) && SumExtras(run.acc) <= |data|
      && if skip then
           Rebuild(p.lib, BufferAfter(req, buf, run),
                   ReadResult(|data|, SumExtras(run.acc), Table(run.acc))) == Ok(data)
         else BufferAfter(req, buf, run) == data + buf[|data|..]
  {
    hide WriteFrames, ReplyTo, Replies, EncodeAll, Rebuild, Table, Assemble, Relabel, FastLz.Contract;
    hide PiecesIn;
    var req, rs := Request(p.lib, readOp, |data|, skip), Relabel(gs, readOp);
    LoopbackIsReply(p, writeOp, offset, data, gs, readOp);
    if skip {
      SkippedReplyRebuilds(p.lib, readOp, s, pos, end, rs, data, buf);
    } else {
      ReplyIsRead(req, s, pos, end, rs, data);
      ReplyIsContent(p.lib, readOp, rs, data, buf);
    }
  }

  lemma {:induction false} LoopbackIsReply(p: Session, writeOp: nat, offset: int, data: Bytes,
                                           gs: seq<AioFrame>, readOp: nat)
    requires p.bufferSize >= 1 && FastLz.Contract(p.lib) && readOp < U32_BOUND
    requires WriteFrames(p, writeOp, offset, data, 0).error == None
    requires multiset(gs) == multiset(WriteFrames(p, writeOp, offset, data, 0).frames)
    ensures ReplyTo(p.lib, readOp, Relabel(gs, readOp), data)
    ensures PiecesIn(Relabel(gs, readOp)) == PiecesIn(gs) && SumExtras(PiecesIn(gs)) <= |data|
  {
    var fs := WriteFrames(p, writeOp, offset, data, 0).frames;
    WriteIsReply(p, writeOp, offset, data);
    ReplyInAnyOrder(p.lib, writeOp, fs, gs, data);
    WriteSums(p, writeOp, offset, data, 0);
    RelabelledPieces(gs, readOp);
  }
}
