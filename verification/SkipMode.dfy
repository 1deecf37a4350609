/** A read with `skip_decompression` and the caller's own rebuild of its packed buffer
    (`_rebuild_skip`), against the decompressing read of the same stream. */
module SkipMode {
  import opened Wire
  import opened Frames
  import opened Pieces
  import opened Reading

  function Skipping(req: Request): Request {
    req.(skip := true)
  }

  function Decompressing(req: Request): Request {
    req.(skip := false)
  }

  lemma {:induction false} NextPieceInBothModes(req: Request, s: Bytes, pos: nat, acc: seq<Piece>)
    requires pos <= |s|
    ensures var a, b := NextPiece(Skipping(req), s, pos, acc), NextPiece(Decompressing(req), s, pos, acc);
      && (a.Took? && Decoded(req.lib, a.piece).Some? ==> b == a)
      && (a.Took? && Decoded(req.lib, a.piece).None? ==> b.Refused? && b.error == ProtocolError)
      && (b.Took? && SumExtras(acc) + |b.piece.extra| <= req.length ==> a == b)
      && (b.Took? && SumExtras(acc) + |b.piece.extra| > req.length ==>
            a.Refused? && a.error == ProtocolError)
  {
  }

  lemma {:induction false} DecodeOfPrefix(lib: FastLz.Library, acc: seq<Piece>, p: Piece, all: seq<Piece>)
    requires acc + [p] <= all && AllDecode(lib, all)
    ensures Decoded(lib, p).Some?
  {
    assert all[|acc|] == (acc + [p])[|acc|];
  }

  lemma {:induction false} ExtrasOfPrefix(ps: seq<Piece>, all: seq<Piece>)
    requires ps <= all
    ensures SumExtras(ps) <= SumExtras(all)
    decreases |all|
  {
    if |ps| < |all| {
      ExtrasOfPrefix(ps, Init(all));
    } else {
      assert ps == all;
    }
  }

  /** After a skipping read, the decompressing read of the same stream returns exactly when
      every extra decodes, with the same fragments and the same bytes consumed; otherwise it
      raises a protocol error. */
  lemma {:induction false} DecompressAfterSkip(req: Request, s: Bytes, pos: nat, acc: seq<Piece>,
                                               end: nat, all: seq<Piece>)
    requires pos <= |s| && Accepted(Skipping(req), acc) && Accepted(Decompressing(req), acc)
    requires Replies(Skipping(req), s, pos, acc) == Done(end, all)
    ensures var r := Replies(Decompressing(req), s, pos, acc);
      && r.Done? == AllDecode(req.lib, all) && (r.Done? ==> r == Done(end, all))
      && (r.Failed? ==> r.error == ProtocolError)
    decreases req.length - SumChunks(acc)
  {
    AcceptedFacts(Decompressing(req), acc);
    if SumChunks(acc) < req.length {
      NextPieceInBothModes(req, s, pos, acc);
      var step := NextPiece(Skipping(req), s, pos, acc);
      RepliesStep(Skipping(req), s, pos, acc, step.piece, step.pos);
      if Decoded(req.lib, step.piece).Some? {
        RepliesStep(Decompressing(req), s, pos, acc, step.piece, step.pos);
        DecompressAfterSkip(req, s, step.pos, acc + [step.piece], end, all);
      } else if AllDecode(req.lib, all) {
        DecodeOfPrefix(req.lib, acc, step.piece, all);
      }
    }
  }

  /** After a decompressing read, the skipping read of the same stream returns exactly when
      the extras fit the request, with the same fragments and the same bytes consumed;
      otherwise it raises a protocol error. */
  lemma {:induction false} SkipAfterDecompress(req: Request, s: Bytes, pos: nat, acc: seq<Piece>,
                                               end: nat, all: seq<Piece>)
    requires pos <= |s| && Accepted(Skipping(req), acc) && Accepted(Decompressing(req), acc)
    requires Replies(Decompressing(req), s, pos, acc) == Done(end, all)
    ensures var r := Replies(Skipping(req), s, pos, acc);
      && r.Done? == (SumExtras(all) <= req.length) && (r.Done? ==> r == Done(end, all))
      && (r.Failed? ==> r.error == ProtocolError)
    decreases req.length - SumChunks(acc)
  {
    AcceptedFacts(Skipping(req), acc);
    if SumChunks(acc) < req.length {
      NextPieceInBothModes(req, s, pos, acc);
      var step := NextPiece(Decompressing(req), s, pos, acc);
      RepliesStep(Decompressing(req), s, pos, acc, step.piece, step.pos);
      Snoc(acc, step.piece);
      ExtrasOfPrefix(acc + [step.piece], all);
      if SumExtras(acc + [step.piece]) <= req.length {
        RepliesStep(Skipping(req), s, pos, acc, step.piece, step.pos);
        SkipAfterDecompress(req, s, step.pos, acc + [step.piece], end, all);
      }
    }
  }

  // ---------- _rebuild_skip ----------

  /** Python's `b[lo:hi]`. */
  function Slice(b: Bytes, lo: nat, hi: nat): Bytes
    requires lo <= hi
  {
    b[Min(lo, |b|)..Min(hi, |b|)]
  }

  function DecodeExtra(lib: FastLz.Library, ctype: nat, extra: Bytes, chunkLen: nat): Result<Bytes> {
    if ctype == NFC_COMPRESSION_FASTLZ then
      match FastLz.Decompress(lib, extra, chunkLen)
      case Err(e) => Err(e)
      case Ok(chunk) => if |chunk| != chunkLen then Err(AssertionError) else Ok(chunk)
    else if ctype == NFC_COMPRESSION_NONE then
      if |extra| != chunkLen then Err(AssertionError) else Ok(extra)
    else Err(AssertionError)
  }

  function FragmentChunk(lib: FastLz.Library, view: Bytes, f: ReadFragment): Result<Bytes> {
    DecodeExtra(lib, f.compressionType, Slice(view, f.offset, f.offset + f.length),
                f.uncompressedLength)
  }

  /** The output after the first `k` table entries. */
  function Rebuilt(lib: FastLz.Library, view: Bytes, r: ReadResult, k: nat): Result<Bytes>
    requires k <= |r.fragments|
  {
    if k == 0 then Ok(Zeros(r.uncompressedLength))
    else match Rebuilt(lib, view, r, k - 1)
         case Err(e) => Err(e)
         case Ok(out) =>
           match FragmentChunk(lib, view, r.fragments[k - 1])
           case Err(e) => Err(e)
           case Ok(chunk) => Ok(Splice(out, r.fragments[k - 1].dest, chunk))
  }

  function PackedLength(fs: seq<ReadFragment>, k: nat): nat
    requires k <= |fs|
  {
    if k == 0 then 0 else PackedLength(fs, k - 1) + fs[k - 1].length
  }

  function Rebuild(lib: FastLz.Library, view: Bytes, r: ReadResult): Result<Bytes> {
    match Rebuilt(lib, view, r, |r.fragments|)
    case Err(e) => Err(e)
    case Ok(out) =>
      if PackedLength(r.fragments, |r.fragments|) != r.compressedLength then Err(AssertionError)
      else Ok(out)
  }

  method RebuildSkip(lib: FastLz.Library, view: Bytes, result: ReadResult) returns (r: Result<Bytes>)
    ensures r == Rebuild(lib, view, result)
  {
    var out := Zeros(result.uncompressedLength);
    var packed := 0;
    for k := 0 to |result.fragments|
      invariant Rebuilt(lib, view, result, k) == Ok(out)
      invariant packed == PackedLength(result.fragments, k)
    {
      var frag := result.fragments[k];
      packed := packed + frag.length;
      var chunk := FragmentChunk(lib, view, frag);
      if chunk.Err? {
        ErrStays(lib, view, result, k + 1, |result.fragments|);
        return chunk;
      }
      out := Splice(out, frag.dest, chunk.value);
    }
    r := if packed != result.compressedLength then Err(AssertionError) else Ok(out);
  }

  lemma {:induction false} ErrStays(lib: FastLz.Library, view: Bytes, r: ReadResult, k: nat, n: nat)
    requires k <= n <= |r.fragments| && Rebuilt(lib, view, r, k).Err?
    ensures Rebuilt(lib, view, r, n) == Rebuilt(lib, view, r, k)
    decreases n
  {
    if k < n {
      ErrStays(lib, view, r, k, n - 1);
    }
  }

  /** The bytes a table entry names decode, by its type, to the length it announces. */
  predicate Rebuildable(lib: FastLz.Library, view: Bytes, f: ReadFragment) {
    var extra := Slice(view, f.offset, f.offset + f.length);
    if f.compressionType == 2 then
      var r := FastLz.Decompress(lib, extra, f.uncompressedLength);
      r.Ok? && |r.value| == f.uncompressedLength
    else f.compressionType == 0 && |extra| == f.uncompressedLength
  }

  lemma {:induction false} RebuiltIff(lib: FastLz.Library, view: Bytes, r: ReadResult, k: nat)
    requires k <= |r.fragments|
    ensures Rebuilt(lib, view, r, k).Ok? <==>
      forall i :: 0 <= i < k ==> Rebuildable(lib, view, r.fragments[i])
  {
    hide Slice, FastLz.Decompress;
    if k > 0 {
      RebuiltIff(lib, view, r, k - 1);
    }
  }

  /** The rebuild of any table over any bytes succeeds exactly when every entry decodes and the
      entries add up to the compressed length. */
  lemma {:induction false} RebuildSucceedsIff(lib: FastLz.Library, view: Bytes, r: ReadResult)
    ensures Rebuild(lib, view, r).Ok? <==>
      && (forall i :: 0 <= i < |r.fragments| ==> Rebuildable(lib, view, r.fragments[i]))
      && PackedLength(r.fragments, |r.fragments|) == r.compressedLength
  {
    hide Rebuildable, Rebuilt;
    RebuiltIff(lib, view, r, |r.fragments|);
  }

  lemma {:induction false} DecodeExtraIsDecoded(lib: FastLz.Library, p: Piece)
    ensures DecodeExtra(lib, p.ctype, p.extra, p.chunkLen).Ok? == Decoded(lib, p).Some?
    ensures Decoded(lib, p).Some? ==>
      DecodeExtra(lib, p.ctype, p.extra, p.chunkLen) == Ok(Decoded(lib, p).value)
  {
  }

  lemma {:induction false} SliceOfPacked(buf: Bytes, e: Bytes, lo: nat, hi: nat)
    requires lo <= hi <= |e| <= |buf|
    ensures Slice(Splice(buf, 0, e), lo, hi) == e[lo..hi]
  {
    SliceOfSplice(buf, e, lo, hi);
  }

  lemma {:induction false} ExtraOfTable(buf: Bytes, acc: seq<Piece>, k: nat, f: ReadFragment)
    requires k < |acc| && SumExtras(acc) <= |buf| && f == Table(acc)[k]
    ensures Slice(Splice(buf, 0, Extras(acc)), f.offset, f.offset + f.length) == acc[k].extra
  {
    TableCutsExtras(acc, k);
    SliceOfPacked(buf, Extras(acc), f.offset, f.offset + f.length);
  }

  lemma {:induction false} ChunkOfTable(lib: FastLz.Library, buf: Bytes, acc: seq<Piece>, k: nat)
    requires k < |acc| && SumExtras(acc) <= |buf|
    ensures var chunk := FragmentChunk(lib, Splice(buf, 0, Extras(acc)), Table(acc)[k]);
      && chunk.Ok? == Decoded(lib, acc[k]).Some?
      && (chunk.Ok? ==> chunk.value == Decoded(lib, acc[k]).value)
      && Table(acc)[k].dest == acc[k].dest
  {
    TableCutsExtras(acc, k);
    ExtraOfTable(buf, acc, k, Table(acc)[k]);
    DecodeExtraIsDecoded(lib, acc[k]);
  }

  lemma {:induction false} TableLengths(acc: seq<Piece>, k: nat)
    requires k <= |acc|
    ensures PackedLength(Table(acc), k) == SumExtras(acc[..k])
  {
    if k > 0 {
      TableLengths(acc, k - 1);
      TableCutsExtras(acc, k - 1);
      SumExtrasStep(acc, k - 1);
    }
  }

  lemma {:induction false} AllDecodeSnoc(lib: FastLz.Library, ps: seq<Piece>)
    requires ps != []
    ensures AllDecode(lib, ps) <==> AllDecode(lib, Init(ps)) && Decoded(lib, Last(ps)).Some?
  {
    if AllDecode(lib, Init(ps)) && Decoded(lib, Last(ps)).Some? {
      forall i | 0 <= i < |ps|
        ensures Decoded(lib, ps[i]).Some?
      {
        assert ps[i] == if i < |ps| - 1 then Init(ps)[i] else Last(ps);
      }
    }
  }

  lemma {:induction false} RebuiltIsAssembled(lib: FastLz.Library, buf: Bytes, acc: seq<Piece>,
                                              length: nat, k: nat)
    requires SumExtras(acc) <= |buf| && k <= |acc|
    ensures var r := ReadResult(length, SumExtras(acc), Table(acc));
      var out := Rebuilt(lib, Splice(buf, 0, Extras(acc)), r, k);
      && out.Ok? == AllDecode(lib, acc[..k])
      && (out.Ok? ==> out.value == Assemble(lib, Zeros(length), acc[..k]))
  {
    if k > 0 {
      RebuiltIsAssembled(lib, buf, acc, length, k - 1);
      ChunkOfTable(lib, buf, acc, k - 1);
      assert Init(acc[..k]) == acc[..k - 1] && Last(acc[..k]) == acc[k - 1];
      AllDecodeSnoc(lib, acc[..k]);
    }
  }

  /** Skipping defers decompression and loses nothing: after a skipping read, rebuilding the
      packed buffer succeeds exactly when the decompressing read of the same stream would
      have returned, with the same bytes, fragments, wire count and stream position. */
  lemma {:induction false} SkipThenRebuildIsRead(req: Request, s: Bytes, pos: nat, buf: Bytes)
    requires pos <= |s| && req.length <= |buf| && Replies(Skipping(req), s, pos, []).Done?
    ensures var skip := Replies(Skipping(req), s, pos, []);
      var plain := Replies(Decompressing(req), s, pos, []);
      var packed := BufferAfter(Skipping(req), buf, skip);
      var rebuilt := Rebuild(req.lib, packed, ReadResult(req.length, SumExtras(skip.acc), Table(skip.acc)));
      && rebuilt.Ok? == plain.Done?
      && (plain.Done? ==>
            plain == skip && rebuilt == Ok(BufferAfter(Decompressing(req), Zeros(req.length), plain)))
  {
    var skip := Replies(Skipping(req), s, pos, []);
    DecompressAfterSkip(req, s, pos, [], skip.pos, skip.acc);
    AcceptedFacts(Skipping(req), skip.acc);
    RebuiltIsAssembled(req.lib, buf, skip.acc, req.length, |skip.acc|);
    assert skip.acc[..|skip.acc|] == skip.acc;
    TableLengths(skip.acc, |skip.acc|);
  }
}
