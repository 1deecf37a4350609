/** What the `ReadResult` of `readinto` says, in both modes and from any peer: read off the
    frames that were consumed. */
module Results {
  import opened Wire
  import opened Frames
  import opened Pieces
  import opened Reading
  import opened Requests
  import opened SkipMode
  import opened Conforming
  import Client

  /** The bytes of the frames that are not extras: 16-byte headers and payloads. */
  function Framing(fs: seq<AioFrame>): nat {
    if fs == [] then 0 else 16 + |fs[0].payload| + Framing(fs[1..])
  }

  lemma {:induction false} ExtrasAreTheRest(fs: seq<AioFrame>)
    requires AllSendable(fs)
    ensures |EncodeAll(fs)| == Framing(fs) + SumExtras(PiecesIn(fs))
  {
    if fs != [] {
      ExtrasAreTheRest(fs[1..]);
      SumChunksCons(ToPiece(fs[0]), PiecesIn(fs[1..]));
    }
  }

  /** One entry of the fragment table, read off the payload of its frame; its extra starts at
      `offset` in the packed buffer. */
  predicate Describes(e: ReadFragment, f: AioFrame, offset: nat) {
    && |f.payload| >= 36 && e.dest == GetU32(f.payload, 28)
    && e.uncompressedLength == GetU32(f.payload, 32)
    && e.compressionType == GetU64(f.payload, 8) / U32_BOUND
    && e.offset == offset && e.length == |f.extra|
  }

  lemma {:induction false} SentAndDone(p: Session, opId: nat, start: int, num: int, buf: Bytes,
                                       readOnly: bool, skip: bool, s: Bytes, pos: nat)
    requires pos <= |s|
    requires Client.ReadInto(p, opId, start, num, buf, readOnly, skip, s, pos).effect.result.Ok?
    ensures num >= 1 && num * p.sectorSize >= 0
    ensures var r := Client.ReadInto(p, opId, start, num, buf, readOnly, skip, s, pos).effect;
      var run := Replies(Request(p.lib, opId, num * p.sectorSize, skip), s, pos, []);
      && run.Done? && r.pos == run.pos
      && r.result == Ok(ReadResult(num * p.sectorSize, SumExtras(run.acc), if skip then Table(run.acc) else []))
  {
    hide Replies, BufferAfter, Pack, ReadFields, Table;
  }

  /** A successful `readinto` consumed whole frames, and says of them: the uncompressed length
      is that of the request, the compressed length is what was consumed less headers and
      payloads, and the fragments are one for each frame when skipping, and none otherwise. */
  lemma {:induction false} ResultOfRead(p: Session, opId: nat, start: int, num: int, buf: Bytes,
                                        readOnly: bool, skip: bool, s: Bytes, pos: nat)
    returns (fs: seq<AioFrame>)
    requires pos <= |s|
    requires Client.ReadInto(p, opId, start, num, buf, readOnly, skip, s, pos).effect.result.Ok?
    ensures var r := Client.ReadInto(p, opId, start, num, buf, readOnly, skip, s, pos).effect;
      && AllSendable(fs) && s[pos..r.pos] == EncodeAll(fs)
      && r.result.value.uncompressedLength == num * p.sectorSize
      && r.result.value.compressedLength + Framing(fs) == r.pos - pos
      && |r.result.value.fragments| == (if skip then |fs| else 0)
      && (skip ==> forall k :: 0 <= k < |fs| ==>
            Describes(r.result.value.fragments[k], fs[k], SumExtras(PiecesIn(fs[..k]))))
  {
    hide Client.ReadInto, Replies, Table, EncodeAll, AcceptableRun, SumExtras, Describes, Framing;
    SentAndDone(p, opId, start, num, buf, readOnly, skip, s, pos);
    var req := Request(p.lib, opId, num * p.sectorSize, skip);
    var run := Replies(req, s, pos, []);
    fs := FramesOfReplies(req, s, pos, [], run.pos, run.acc);
    assert [] + PiecesIn(fs) == PiecesIn(fs);
    ExtrasAreTheRest(fs);
    RunIsReplies(req, [], fs);
    if skip {
      forall k | 0 <= k < |fs|
        ensures Describes(Table(run.acc)[k], fs[k], SumExtras(PiecesIn(fs[..k])))
      {
        EntryDescribes(opId, fs, k);
      }
    }
  }

  lemma {:induction false} EntryDescribes(opId: nat, fs: seq<AioFrame>, k: nat)
    requires k < |fs| && IsReply(opId, fs[k])
    ensures Describes(Table(PiecesIn(fs))[k], fs[k], SumExtras(PiecesIn(fs[..k])))
  {
    hide GetU32, GetU64, SumExtras, Table;
    PieceAt(fs, k);
    TableCutsExtras(PiecesIn(fs), k);
    TableIsDense(PiecesIn(fs), k);
    PrefixPieces(fs, k);
  }

  lemma {:induction false} PrefixPieces(fs: seq<AioFrame>, k: nat)
    requires k <= |fs|
    ensures PiecesIn(fs)[..k] == PiecesIn(fs[..k])
  {
    forall i | 0 <= i < k
      ensures PiecesIn(fs)[i] == PiecesIn(fs[..k])[i]
    {
      PieceAt(fs, i);
      PieceAt(fs[..k], i);
    }
  }

  /** Both modes report the same lengths, and stand at the same place, where both return. */
  lemma {:induction false} LengthsAgree(p: Session, opId: nat, start: int, num: int, buf: Bytes,
                                        readOnly: bool, s: Bytes, pos: nat)
    requires pos <= |s|
    ensures var skip := Client.ReadInto(p, opId, start, num, buf, readOnly, true, s, pos).effect;
      var plain := Client.ReadInto(p, opId, start, num, buf, readOnly, false, s, pos).effect;
      skip.result.Ok? && plain.result.Ok? ==>
        && plain.pos == skip.pos
        && plain.result.value == skip.result.value.(fragments := [])
  {
    hide Client.ReadInto, Replies, Table, SumExtras;
    var skip := Client.ReadInto(p, opId, start, num, buf, readOnly, true, s, pos).effect;
    var plain := Client.ReadInto(p, opId, start, num, buf, readOnly, false, s, pos).effect;
    if skip.result.Ok? && plain.result.Ok? {
      SentAndDone(p, opId, start, num, buf, readOnly, true, s, pos);
      SentAndDone(p, opId, start, num, buf, readOnly, false, s, pos);
      var req := Request(p.lib, opId, num * p.sectorSize, true);
      var run := Replies(req, s, pos, []);
      assert Skipping(req) == req;
      DecompressAfterSkip(req, s, pos, [], run.pos, run.acc);
    }
  }

  /** Of a conforming reply, the lengths are those of the content and of the reply's extras. */
  lemma {:induction false} ResultOfReply(p: Session, opId: nat, start: int, num: int, buf: Bytes,
                                         skip: bool, s: Bytes, pos: nat, end: nat,
                                         fs: seq<AioFrame>, content: Bytes)
    requires num >= 1 && ReadFits(p, opId, start * p.sectorSize, num * p.sectorSize)
    requires |content| == num * p.sectorSize <= |buf|
    requires ReplyTo(p.lib, opId, fs, content) && AllSendable(fs)
    requires skip ==> SumExtras(PiecesIn(fs)) <= |content|
    requires pos <= end <= |s| && s[pos..end] == EncodeAll(fs)
    ensures var r := Client.ReadInto(p, opId, start, num, buf, false, skip, s, pos).effect;
      && r.result.Ok? && r.pos == end
      && r.result.value.uncompressedLength == |content|
      && r.result.value.compressedLength == SumExtras(PiecesIn(fs))
      && |r.result.value.fragments| == if skip then |fs| else 0
  {
    hide Replies, ReplyTo, EncodeAll, Table, BufferAfter, PrepareRead, SumExtras, PiecesIn;
    ReadIsSent(p, opId, start, num, |buf|);
    ReplyIsRead(Request(p.lib, opId, |content|, skip), s, pos, end, fs, content);
  }
}
