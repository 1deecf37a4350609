/** Read fragments after their header and payload have been accepted: what they add up to,
    which bytes of the request they cover, what buffer they build. Lists of pieces grow at
    the end, in the order the fragments arrive. */
module Pieces {
  import opened Wire
  import opened Frames
  import FastLz

  /** One fragment: where it goes in the request, its uncompressed length, how its extra is
      encoded, and the extra itself. */
  datatype Piece = Piece(dest: nat, chunkLen: nat, ctype: nat, extra: Bytes)

  datatype ReadFragment = ReadFragment(
    dest: nat, uncompressedLength: nat, compressionType: nat, offset: nat, length: nat)

  datatype ReadResult = ReadResult(
    uncompressedLength: nat, compressedLength: nat, fragments: seq<ReadFragment>)

  function Init<T>(s: seq<T>): seq<T>
    requires s != []
  {
    s[..|s| - 1]
  }

  function Last<T>(s: seq<T>): T
    requires s != []
  {
    s[|s| - 1]
  }

  function SumChunks(ps: seq<Piece>): nat {
    if ps == [] then 0 else SumChunks(Init(ps)) + Last(ps).chunkLen
  }

  function SumExtras(ps: seq<Piece>): nat {
    if ps == [] then 0 else SumExtras(Init(ps)) + |Last(ps).extra|
  }

  function Dests(ps: seq<Piece>): set<nat> {
    set p | p in ps :: p.dest
  }

  lemma {:induction false} Snoc(ps: seq<Piece>, p: Piece)
    ensures SumChunks(ps + [p]) == SumChunks(ps) + p.chunkLen
    ensures SumExtras(ps + [p]) == SumExtras(ps) + |p.extra|
    ensures Dests(ps + [p]) == Dests(ps) + {p.dest}
  {
    assert Init(ps + [p]) == ps;
    forall d
      ensures d in Dests(ps + [p]) <==> d in Dests(ps) + {p.dest}
    {
      if d in Dests(ps) {
        var q :| q in ps && q.dest == d;
        assert q in ps + [p];
      }
      assert p in ps + [p];
    }
  }

  // ---------- coverage ----------

  function Span(lo: nat, hi: nat): (r: set<nat>)
    ensures forall i :: i in r <==> lo <= i < hi
    ensures |r| == if lo <= hi then hi - lo else 0
    decreases hi
  {
    if lo < hi then Span(lo, hi - 1) + {hi - 1} else {}
  }

  function Cells(p: Piece): set<nat> {
    Span(p.dest, p.dest + p.chunkLen)
  }

  function Covered(ps: seq<Piece>): set<nat> {
    if ps == [] then {} else Covered(Init(ps)) + Cells(Last(ps))
  }

  predicate Apart(p: Piece, q: Piece) {
    p.dest + p.chunkLen <= q.dest || q.dest + q.chunkLen <= p.dest
  }

  predicate Disjoint(ps: seq<Piece>) {
    forall i, j :: 0 <= i < j < |ps| ==> Apart(ps[i], ps[j])
  }

  /** Every piece is non-empty and lies in the request. */
  predicate Within(ps: seq<Piece>, n: nat) {
    forall i :: 0 <= i < |ps| ==> ps[i].chunkLen >= 1 && ps[i].dest + ps[i].chunkLen <= n
  }

  lemma {:induction false} InCovered(ps: seq<Piece>, i: nat)
    ensures i in Covered(ps) <==> exists k :: 0 <= k < |ps| && i in Cells(ps[k])
  {
    hide Span, Cells;
    if ps != [] {
      InCovered(Init(ps), i);
      if i in Covered(Init(ps)) {
        var k :| 0 <= k < |Init(ps)| && i in Cells(Init(ps)[k]);
        assert i in Cells(ps[k]);
      }
      assert Last(ps) == ps[|ps| - 1];
      if k :| 0 <= k < |ps| && i in Cells(ps[k]) {
        if k < |ps| - 1 {
          assert i in Cells(Init(ps)[k]);
        }
      }
    }
  }

  lemma {:induction false} CoveredWithin(ps: seq<Piece>, n: nat)
    requires Within(ps, n)
    ensures Covered(ps) <= Span(0, n)
  {
    forall i | i in Covered(ps)
      ensures i in Span(0, n)
    {
      InCovered(ps, i);
    }
  }

  lemma {:induction false} ApartIsNoCommonCell(p: Piece, q: Piece)
    requires p.chunkLen >= 1 && q.chunkLen >= 1
    ensures Apart(p, q) <==> Cells(p) * Cells(q) == {}
  {
    var x := if p.dest >= q.dest then p.dest else q.dest;
    assert x in Cells(p) && x in Cells(q) <==> !Apart(p, q);
    if x in Cells(p) && x in Cells(q) {
      assert x in Cells(p) * Cells(q);
    }
  }

  lemma {:induction false} NothingShared(ps: seq<Piece>, p: Piece)
    requires p.chunkLen >= 1 && forall k :: 0 <= k < |ps| ==> ps[k].chunkLen >= 1
    ensures Covered(ps) * Cells(p) == {} <==> forall k :: 0 <= k < |ps| ==> Apart(ps[k], p)
  {
    if Covered(ps) * Cells(p) == {} {
      forall k | 0 <= k < |ps|
        ensures Apart(ps[k], p)
      {
        forall i: nat | i in Cells(ps[k])
          ensures i !in Cells(p)
        {
          InCovered(ps, i);
          assert i !in Covered(ps) * Cells(p);
        }
        assert Cells(ps[k]) * Cells(p) == {};
        ApartIsNoCommonCell(ps[k], p);
      }
    }
    if forall k :: 0 <= k < |ps| ==> Apart(ps[k], p) {
      forall i: nat | i in Covered(ps)
        ensures i !in Cells(p)
      {
        InCovered(ps, i);
      }
    }
  }

  /** A piece keeps a list disjoint exactly when it covers nothing covered already. */
  lemma {:induction false} DisjointSnoc(ps: seq<Piece>, n: nat)
    requires ps != [] && Within(ps, n)
    ensures Disjoint(ps) <==> Disjoint(Init(ps)) && Covered(Init(ps)) * Cells(Last(ps)) == {}
  {
    hide Covered, Span;
    var front, p := Init(ps), Last(ps);
    NothingShared(front, p);
    if Disjoint(ps) {
      forall i, j | 0 <= i < j < |front|
        ensures Apart(front[i], front[j])
      {
        assert Apart(ps[i], ps[j]);
      }
      forall k | 0 <= k < |front|
        ensures Apart(front[k], p)
      {
        assert Apart(ps[k], ps[|ps| - 1]);
      }
    }
    if Disjoint(front) && forall k :: 0 <= k < |front| ==> Apart(front[k], p) {
      forall i, j | 0 <= i < j < |ps|
        ensures Apart(ps[i], ps[j])
      {
        assert Apart(front[i], if j < |front| then front[j] else p);
      }
    }
  }

  /** Lengths count every covered byte once exactly when no two pieces overlap. */
  lemma {:induction false} SumIsCoverage(ps: seq<Piece>, n: nat)
    requires Within(ps, n)
    ensures |Covered(ps)| <= SumChunks(ps)
    ensures |Covered(ps)| == SumChunks(ps) <==> Disjoint(ps)
  {
    if ps != [] {
      SumIsCoverage(Init(ps), n);
      DisjointSnoc(ps, n);
      var common := Covered(Init(ps)) * Cells(Last(ps));
      assert |Covered(ps)| + |common| == |Covered(Init(ps))| + Last(ps).chunkLen;
      assert |common| == 0 <==> common == {};
    }
  }

  lemma {:induction false} SubsetSize<T>(a: set<T>, b: set<T>)
    requires a <= b
    ensures |a| <= |b|
    ensures |a| == |b| <==> a == b
  {
    assert |b| == |a| + |b - a| by {
      assert b == a + (b - a);
    }
    if |a| == |b| {
      assert b - a == {};
    }
  }

  /** Counting lengths up to the request size is the same as covering the request, as long
      as the pieces do not overlap; and a full count with a gap means an overlap. */
  lemma {:induction false} CountingIsCoverage(ps: seq<Piece>, n: nat)
    requires Within(ps, n)
    ensures Disjoint(ps) ==> SumChunks(ps) <= n
    ensures Disjoint(ps) ==> (SumChunks(ps) == n <==> Covered(ps) == Span(0, n))
    ensures SumChunks(ps) == n ==> (Disjoint(ps) <==> Covered(ps) == Span(0, n))
  {
    SumIsCoverage(ps, n);
    CoveredWithin(ps, n);
    SubsetSize(Covered(ps), Span(0, n));
  }

  function End(p: Piece): nat {
    p.dest + p.chunkLen
  }

  /** Some piece starts at or before `i` and goes on past it. */
  ghost predicate Reaches(ps: seq<Piece>, i: nat) {
    exists j :: 0 <= j < |ps| && ps[j].dest <= i < End(ps[j])
  }

  /** The pieces reach byte 0, and where one ends inside the request another goes on. */
  ghost predicate NoGap(ps: seq<Piece>, n: nat) {
    && (n > 0 ==> Reaches(ps, 0))
    && forall k :: 0 <= k < |ps| && End(ps[k]) < n ==> Reaches(ps, End(ps[k]))
  }

  lemma {:induction false} CoveredIsReached(ps: seq<Piece>, i: nat)
    ensures i in Covered(ps) <==> Reaches(ps, i)
  {
    hide Covered;
    InCovered(ps, i);
    if Reaches(ps, i) {
      var j :| 0 <= j < |ps| && ps[j].dest <= i < End(ps[j]);
      assert i in Cells(ps[j]);
    }
  }

  /** Pieces, overlapping or not, leave no byte of the request out exactly when their edges
      leave no gap. */
  lemma {:induction false} CoverageIsNoGap(ps: seq<Piece>, n: nat)
    requires Within(ps, n)
    ensures Covered(ps) == Span(0, n) <==> NoGap(ps, n)
  {
    hide Covered, Reaches;
    CoveredWithin(ps, n);
    if Covered(ps) == Span(0, n) {
      CoveredIsReached(ps, 0);
      forall k | 0 <= k < |ps| && End(ps[k]) < n
        ensures Reaches(ps, End(ps[k]))
      {
        CoveredIsReached(ps, End(ps[k]));
      }
    }
    if NoGap(ps, n) {
      forall i: nat | i in Span(0, n)
        ensures i in Covered(ps)
      {
        NoGapReaches(ps, n, i);
        CoveredIsReached(ps, i);
      }
    }
  }

  lemma {:induction false} NoGapReaches(ps: seq<Piece>, n: nat, i: nat)
    requires NoGap(ps, n) && i < n
    ensures Reaches(ps, i)
  {
    if i > 0 {
      NoGapReaches(ps, n, i - 1);
      var k :| 0 <= k < |ps| && ps[k].dest <= i - 1 < End(ps[k]);
      assert End(ps[k]) == i ==> Reaches(ps, End(ps[k]));
    }
  }

  // ---------- the buffer a decompressing read builds ----------

  /** The uncompressed bytes of a piece, when its extra decodes to the announced length. */
  function Decoded(lib: FastLz.Library, p: Piece): (r: Option<Bytes>)
    ensures r.Some? ==> |r.value| == p.chunkLen
  {
    if p.ctype == NFC_COMPRESSION_FASTLZ then
      match FastLz.Decompress(lib, p.extra, p.chunkLen)
      case Err(_) => None
      case Ok(c) => if |c| == p.chunkLen then Some(c) else None
    else if p.ctype == NFC_COMPRESSION_NONE && |p.extra| == p.chunkLen then Some(p.extra)
    else None
  }

  predicate AllDecode(lib: FastLz.Library, ps: seq<Piece>) {
    forall i :: 0 <= i < |ps| ==> Decoded(lib, ps[i]).Some?
  }

  function Assemble(lib: FastLz.Library, buf: Bytes, ps: seq<Piece>): Bytes
    requires AllDecode(lib, ps)
  {
    if ps == [] then buf
    else Splice(Assemble(lib, buf, Init(ps)), Last(ps).dest, Decoded(lib, Last(ps)).value)
  }

  /** Bytes no piece covers keep their value, and nothing outside the request is touched. */
  lemma {:induction false} AssembleFrame(lib: FastLz.Library, buf: Bytes, ps: seq<Piece>, n: nat)
    requires AllDecode(lib, ps) && Within(ps, n) && n <= |buf|
    ensures |Assemble(lib, buf, ps)| == |buf|
    ensures forall i :: 0 <= i < |buf| && i !in Covered(ps) ==> Assemble(lib, buf, ps)[i] == buf[i]
    ensures Assemble(lib, buf, ps)[n..] == buf[n..]
  {
    hide Decoded;
    if ps != [] {
      AssembleFrame(lib, buf, Init(ps), n);
      CoveredWithin(ps, n);
      assert Last(ps) == ps[|ps| - 1];
      hide Span;
      var b, c := Assemble(lib, buf, Init(ps)), Decoded(lib, Last(ps)).value;
      forall i | 0 <= i < |buf| && i !in Covered(ps)
        ensures Splice(b, Last(ps).dest, c)[i] == buf[i]
      {
        assert i !in Cells(Last(ps)) && i !in Covered(Init(ps));
      }
      SpliceBelow(b, Last(ps).dest, c, n);
    }
  }

  /** The last piece is in the buffer, and the rest of the buffer is as before it. */
  lemma {:induction false} AssembleLast(lib: FastLz.Library, buf: Bytes, ps: seq<Piece>, n: nat, i: nat)
    requires AllDecode(lib, ps) && Within(ps, n) && n <= |buf| && ps != [] && i < |buf|
    ensures |Assemble(lib, buf, ps)| == |Assemble(lib, buf, Init(ps))| == |buf|
    ensures Assemble(lib, buf, ps)[i] ==
      var p := Last(ps);
      if p.dest <= i < p.dest + p.chunkLen then Decoded(lib, p).value[i - p.dest] else Assemble(lib, buf, Init(ps))[i]
  {
    AssembleFrame(lib, buf, ps, n);
    AssembleFrame(lib, buf, Init(ps), n);
    assert Last(ps) == ps[|ps| - 1];
  }

  /** The uncompressed bytes of the piece are in the buffer, at its place. */
  predicate Holds(lib: FastLz.Library, buf: Bytes, p: Piece) {
    && p.dest + p.chunkLen <= |buf|
    && Decoded(lib, p) == Some(buf[p.dest..p.dest + p.chunkLen])
  }

  /** Where the pieces do not overlap, each one is in the buffer. */
  lemma {:induction false} AssembleDisjoint(lib: FastLz.Library, buf: Bytes, ps: seq<Piece>, n: nat, k: nat)
    requires AllDecode(lib, ps) && Within(ps, n) && n <= |buf| && Disjoint(ps) && k < |ps|
    ensures Holds(lib, Assemble(lib, buf, ps), ps[k])
  {
    var p, c, b := ps[k], Decoded(lib, ps[k]).value, Assemble(lib, buf, ps);
    assert |b| == |buf| by {
      AssembleFrame(lib, buf, ps, n);
    }
    forall i | 0 <= i < p.chunkLen
      ensures b[p.dest + i] == c[i]
    {
      AssembleDisjointAt(lib, buf, ps, n, k, i);
    }
    assert b[p.dest..p.dest + p.chunkLen] == c;
  }

  lemma {:induction false} AssembleDisjointAt(lib: FastLz.Library, buf: Bytes, ps: seq<Piece>,
                                            n: nat, k: nat, i: nat)
    requires AllDecode(lib, ps) && Within(ps, n) && n <= |buf| && Disjoint(ps)
    requires k < |ps| && i < ps[k].chunkLen
    ensures |Assemble(lib, buf, ps)| == |buf|
    ensures Assemble(lib, buf, ps)[ps[k].dest + i] == Decoded(lib, ps[k]).value[i]
  {
    hide Decoded, Covered;
    AssembleLast(lib, buf, ps, n, ps[k].dest + i);
    if k < |ps| - 1 {
      assert Apart(ps[k], ps[|ps| - 1]) && Init(ps)[k] == ps[k];
      assert Disjoint(Init(ps));
      AssembleDisjointAt(lib, buf, Init(ps), n, k, i);
    }
  }

  /** The piece carries its own part of `content`. */
  predicate PieceOf(lib: FastLz.Library, p: Piece, content: Bytes) {
    && p.chunkLen >= 1 && p.dest + p.chunkLen <= |content|
    && Decoded(lib, p) == Some(content[p.dest..p.dest + p.chunkLen])
  }

  predicate PiecesOf(lib: FastLz.Library, ps: seq<Piece>, content: Bytes) {
    forall k :: 0 <= k < |ps| ==> PieceOf(lib, ps[k], content)
  }

  /** Pieces of `content` rebuild every byte of it they cover, in whatever order they come
      and even where they overlap. */
  lemma {:induction false} AssembleCovered(lib: FastLz.Library, buf: Bytes, ps: seq<Piece>,
                                           content: Bytes, i: nat)
    requires PiecesOf(lib, ps, content) && |content| <= |buf| && i in Covered(ps)
    ensures AllDecode(lib, ps) && |Assemble(lib, buf, ps)| == |buf| && i < |content|
    ensures Assemble(lib, buf, ps)[i] == content[i]
  {
    hide Decoded, Span, Assemble;
    var p := Last(ps);
    assert p == ps[|ps| - 1] && PieceOf(lib, ps[|ps| - 1], content);
    assert i < |content| by {
      CoveredWithin(ps, |content|);
      assert i in Span(0, |content|);
    }
    AssembleLast(lib, buf, ps, |content|, i);
    if i in Cells(p) {
      assert Decoded(lib, p).value[i - p.dest] == content[i];
    } else {
      AssembleCovered(lib, buf, Init(ps), content, i);
    }
  }

  // ---------- the buffer and table a skip-decompression read builds ----------

  function Extras(ps: seq<Piece>): (b: Bytes)
    ensures |b| == SumExtras(ps)
  {
    if ps == [] then [] else Extras(Init(ps)) + Last(ps).extra
  }

  /** The fragment table: each extra starts where the ones before it end. */
  function Table(ps: seq<Piece>): (t: seq<ReadFragment>)
    ensures |t| == |ps|
  {
    if ps == [] then []
    else Table(Init(ps)) + [ReadFragment(Last(ps).dest, Last(ps).chunkLen, Last(ps).ctype,
                                         SumExtras(Init(ps)), |Last(ps).extra|)]
  }

  /** Table entry `k` has the fields of fragment `k`, and the slice it names of the packed
      extras is that fragment's extra. */
  lemma {:induction false} TableCutsExtras(ps: seq<Piece>, k: nat)
    requires k < |ps|
    ensures Table(ps)[k].dest == ps[k].dest
    ensures Table(ps)[k].uncompressedLength == ps[k].chunkLen
    ensures Table(ps)[k].compressionType == ps[k].ctype
    ensures Table(ps)[k].length == |ps[k].extra|
    ensures Table(ps)[k].offset + Table(ps)[k].length <= |Extras(ps)|
    ensures Extras(ps)[Table(ps)[k].offset..Table(ps)[k].offset + Table(ps)[k].length] == ps[k].extra
  {
    var front := Init(ps);
    if k < |front| {
      TableCutsExtras(front, k);
      var f := Table(front)[k];
      assert Table(ps)[k] == f;
      PrefixSlice(Extras(front), Last(ps).extra, f.offset, f.offset + f.length);
    } else {
      assert Extras(ps)[|Extras(front)|..] == Last(ps).extra;
    }
  }

  lemma {:induction false} PrefixSlice(a: Bytes, b: Bytes, i: nat, j: nat)
    requires i <= j <= |a|
    ensures (a + b)[i..j] == a[i..j]
  {
  }

  /** The packing is dense: each table entry starts where the entries before it end. */
  lemma {:induction false} TableIsDense(ps: seq<Piece>, k: nat)
    requires k < |ps|
    ensures Table(ps)[k].offset == SumExtras(ps[..k])
  {
    var front := Init(ps);
    if k < |front| {
      TableIsDense(front, k);
      assert front[..k] == ps[..k];
    } else {
      assert ps[..k] == front;
    }
  }

  lemma {:induction false} SumExtrasStep(ps: seq<Piece>, k: nat)
    requires k < |ps|
    ensures SumExtras(ps[..k + 1]) == SumExtras(ps[..k]) + |ps[k].extra|
  {
    assert Init(ps[..k + 1]) == ps[..k];
  }
}
