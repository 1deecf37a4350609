/** Bytes, the outcomes of a call, and `struct.pack` / `struct.unpack_from` for
    little-endian `I` and `Q` fields.

    Python integers are unbounded and `struct.pack` raises `struct.error` when a value does
    not fit its field, so packing yields an Option and every size is written out. */
module Wire {

  type byte = x: int | 0 <= x < 256
  type Bytes = seq<byte>

  datatype Option<+T> = None | Some(value: T)

  /** The exceptions the modelled code raises. NfcProtocolError, authd's ConnectionError and
      a `recv` that reports a closed connection are all ProtocolError. */
  datatype Error =
    | ProtocolError
    | StructError
    | ValueError
    | TypeError
    | RuntimeError
    | AssertionError
    | NotImplementedError
    | OsError

  datatype Result<+T> = Ok(value: T) | Err(error: Error)

  const U32_BOUND: nat := 0x1_0000_0000
  const U64_BOUND: nat := 0x1_0000_0000_0000_0000

  function Min(a: int, b: int): int {
    if a <= b then a else b
  }

  /** Python's `b[at : at + len(bs)] = bs` on a bytearray, and on a memoryview, where the
      slice is always in range. */
  function Splice(b: Bytes, at: nat, bs: Bytes): (r: Bytes)
    ensures at + |bs| <= |b| ==> |r| == |b|
    ensures at + |bs| <= |b| ==> forall i :: 0 <= i < |b| ==>
      r[i] == if at <= i < at + |bs| then bs[i - at] else b[i]
  {
    b[..Min(at, |b|)] + bs + b[Min(at + |bs|, |b|)..]
  }

  lemma {:induction false} SpliceBelow(b: Bytes, at: nat, bs: Bytes, n: nat)
    requires at + |bs| <= n <= |b|
    ensures |Splice(b, at, bs)| == |b| && Splice(b, at, bs)[n..] == b[n..]
  {
  }

  lemma {:induction false} SpliceNothing(b: Bytes, at: nat)
    ensures Splice(b, at, []) == b
  {
  }

  lemma {:induction false} SpliceTwice(b: Bytes, at: nat, x: Bytes, y: Bytes)
    requires at + |x| + |y| <= |b|
    ensures Splice(Splice(b, at, x), at + |x|, y) == Splice(b, at, x + y)
  {
    var l, r := Splice(Splice(b, at, x), at + |x|, y), Splice(b, at, x + y);
    assert |l| == |r| == |b|;
    assert forall i :: 0 <= i < |b| ==> l[i] == r[i];
  }

  lemma {:induction false} SliceOfSplice(b: Bytes, bs: Bytes, i: nat, j: nat)
    requires i <= j <= |bs| <= |b|
    ensures |Splice(b, 0, bs)| == |b| && Splice(b, 0, bs)[i..j] == bs[i..j]
  {
  }

  lemma {:induction false} SliceOfSlice(s: Bytes, at: nat, e: Bytes, i: nat, j: nat)
    requires at + |e| <= |s| && s[at..at + |e|] == e && i <= j <= |e|
    ensures s[at + i..at + j] == e[i..j]
  {
    forall k | 0 <= k < j - i
      ensures s[at + i..at + j][k] == e[i..j][k]
    {
      assert s[at..at + |e|][i + k] == s[at + i + k];
    }
  }

  function Zeros(n: nat): (r: Bytes)
    ensures |r| == n && forall i :: 0 <= i < n ==> r[i] == 0
  {
    seq(n, _ => 0)
  }

  /** `s.encode("ascii")`; None is UnicodeEncodeError, a ValueError. */
  function Ascii(s: string): (r: Option<Bytes>)
    ensures r.Some? <==> forall i :: 0 <= i < |s| ==> s[i] < 128 as char
    ensures r.Some? ==> |r.value| == |s|
  {
    if forall i :: 0 <= i < |s| ==> s[i] < 128 as char
    then Some(seq(|s|, i requires 0 <= i < |s| => s[i] as int))
    else None
  }

  /** Bytes as the characters with these numbers. */
  function Plain(b: Bytes): (s: string)
    ensures |s| == |b|
  {
    seq(|b|, i requires 0 <= i < |b| => b[i] as char)
  }

  /** What is encoded reads back as the same text. */
  lemma {:induction false} PlainOfAscii(s: string)
    requires Ascii(s).Some?
    ensures Plain(Ascii(s).value) == s
  {
  }

  // ---------- little-endian numbers ----------

  function Pow256(n: nat): (r: nat)
    ensures r >= 1
  {
    if n == 0 then 1 else 256 * Pow256(n - 1)
  }

  /** The low `n` bytes of `v`, least significant first. */
  function Le(n: nat, v: nat): (bs: Bytes)
    ensures |bs| == n
  {
    if n == 0 then [] else [v % 256] + Le(n - 1, v / 256)
  }

  function UnLe(bs: Bytes): nat {
    if |bs| == 0 then 0 else bs[0] + 256 * UnLe(bs[1..])
  }

  lemma {:induction false} PowersOf256()
    ensures Pow256(4) == U32_BOUND && Pow256(8) == U64_BOUND
  {
    assert Pow256(2) == 256 * Pow256(1);
    assert Pow256(4) == 256 * Pow256(3);
    assert Pow256(6) == 256 * Pow256(5);
    assert Pow256(8) == 256 * Pow256(7);
  }

  lemma {:induction false} UnLeOfLe(n: nat, v: nat)
    requires v < Pow256(n)
    ensures UnLe(Le(n, v)) == v
  {
    if n > 0 {
      UnLeOfLe(n - 1, v / 256);
      assert Le(n, v)[1..] == Le(n - 1, v / 256);
    }
  }

  lemma {:induction false} LeOfUnLe(bs: Bytes)
    ensures UnLe(bs) < Pow256(|bs|)
    ensures Le(|bs|, UnLe(bs)) == bs
  {
    if |bs| > 0 {
      LeOfUnLe(bs[1..]);
      assert UnLe(bs) % 256 == bs[0] && UnLe(bs) / 256 == UnLe(bs[1..]);
    }
  }

  // ---------- struct.pack ----------

  datatype Field = U32(v: int) | U64(v: int) {
    function Width(): nat {
      if U32? then 4 else 8
    }

    predicate Fits() {
      0 <= v < (if U32? then U32_BOUND else U64_BOUND)
    }
  }

  predicate AllFit(fs: seq<Field>) {
    forall i :: 0 <= i < |fs| ==> fs[i].Fits()
  }

  function Offset(fs: seq<Field>, i: nat): nat
    requires i <= |fs|
    decreases i
  {
    if i == 0 then 0 else Offset(fs, i - 1) + fs[i - 1].Width()
  }

  /** The first `n` fields packed. */
  function Packed(fs: seq<Field>, n: nat): (bs: Bytes)
    requires AllFit(fs) && n <= |fs|
    ensures |bs| == Offset(fs, n)
    decreases n
  {
    if n == 0 then [] else Packed(fs, n - 1) + Le(fs[n - 1].Width(), fs[n - 1].v)
  }

  /** `struct.pack("<…", …)`; None is struct.error. */
  function Pack(fs: seq<Field>): (r: Option<Bytes>)
    ensures r.Some? <==> AllFit(fs)
    ensures r.Some? ==> |r.value| == Offset(fs, |fs|)
  {
    if AllFit(fs) then Some(Packed(fs, |fs|)) else None
  }

  function GetU32(bs: Bytes, off: nat): (v: nat)
    requires off + 4 <= |bs|
    ensures v < U32_BOUND
  {
    LeOfUnLe(bs[off..off + 4]);
    PowersOf256();
    UnLe(bs[off..off + 4])
  }

  function GetU64(bs: Bytes, off: nat): (v: nat)
    requires off + 8 <= |bs|
    ensures v < U64_BOUND
  {
    LeOfUnLe(bs[off..off + 8]);
    PowersOf256();
    UnLe(bs[off..off + 8])
  }

  function Get(bs: Bytes, off: nat, f: Field): nat
    requires off + f.Width() <= |bs|
  {
    if f.U32? then GetU32(bs, off) else GetU64(bs, off)
  }

  lemma {:induction false} PackedField(fs: seq<Field>, n: nat, i: nat)
    requires AllFit(fs) && i < n <= |fs|
    ensures Offset(fs, i) + fs[i].Width() <= Offset(fs, n)
    ensures Packed(fs, n)[Offset(fs, i)..Offset(fs, i) + fs[i].Width()]
         == Le(fs[i].Width(), fs[i].v)
    decreases n
  {
    var last := Le(fs[n - 1].Width(), fs[n - 1].v);
    if i < n - 1 {
      PackedField(fs, n - 1, i);
      var lo, hi := Offset(fs, i), Offset(fs, i) + fs[i].Width();
      assert Packed(fs, n)[lo..hi] == Packed(fs, n - 1)[lo..hi];
    } else {
      assert Packed(fs, n)[Offset(fs, i)..] == last;
    }
  }

  /** Reading field `i` of a packed structure back at its offset gives the packed value,
      whatever follows the structure. */
  lemma {:induction false} UnpackOfPack(fs: seq<Field>, rest: Bytes, i: nat)
    requires Pack(fs).Some? && i < |fs|
    ensures Offset(fs, i) + fs[i].Width() <= |Pack(fs).value|
    ensures Get(Pack(fs).value + rest, Offset(fs, i), fs[i]) == fs[i].v
  {
    PackedField(fs, |fs|, i);
    PowersOf256();
    var lo, hi := Offset(fs, i), Offset(fs, i) + fs[i].Width();
    assert (Pack(fs).value + rest)[lo..hi] == Pack(fs).value[lo..hi];
    UnLeOfLe(fs[i].Width(), fs[i].v);
  }

  lemma {:induction false} UnLeConcat(a: Bytes, b: Bytes)
    ensures UnLe(a + b) == UnLe(a) + Pow256(|a|) * UnLe(b)
  {
    if |a| == 0 {
      assert a + b == b;
    } else {
      UnLeConcat(a[1..], b);
      assert (a + b)[1..] == a[1..] + b;
      assert Pow256(|a|) * UnLe(b) == 256 * (Pow256(|a| - 1) * UnLe(b));
    }
  }

  /** A `Q` is its low `I` and its high `I`: how the IO opcode carries a direction and a
      compression type, and why a total length followed by a zero fragment offset can also
      be read as one 64-bit length. */
  lemma {:induction false} U64IsTwoU32(bs: Bytes, off: nat)
    requires off + 8 <= |bs|
    ensures GetU64(bs, off) == GetU32(bs, off) + U32_BOUND * GetU32(bs, off + 4)
    ensures GetU64(bs, off) / U32_BOUND == GetU32(bs, off + 4)
    ensures GetU64(bs, off) % U32_BOUND == GetU32(bs, off)
  {
    assert bs[off..off + 8] == bs[off..off + 4] + bs[off + 4..off + 8];
    UnLeConcat(bs[off..off + 4], bs[off + 4..off + 8]);
    PowersOf256();
  }
}
