/** openvixdisklib/fastlz.py: NFC carries bare FastLZ data, the `fastlz` library wants and
    produces a `uint32` uncompressed-length prefix. The library itself is a pair of function
    values; None is its FastlzError. Its native `uint32` is taken to be little-endian. */
module FastLz {
  import opened Wire

  datatype Library = Library(
    compress: (Bytes, nat) -> Option<Bytes>,
    decompress: Bytes -> Option<Bytes>)

  const PREFIX_SIZE: nat := 4

  function Level(data: Bytes): nat {
    if |data| < 65536 then 1 else 2
  }

  function Compress(lib: Library, data: Bytes): (r: Result<Bytes>)
    ensures r.Err? ==> r.error == ValueError
  {
    match lib.compress(data, Level(data))
    case None => Err(ValueError)
    case Some(wrapped) =>
      if |wrapped| < PREFIX_SIZE then Err(ValueError) else Ok(wrapped[PREFIX_SIZE..])
  }

  /** Which call of the library is made, by the length of the data, and what is made of its
      result: level 1 below 64 KiB, level 2 from there on, and all but the first 4 bytes. */
  lemma {:induction false} CompressIsOneCall(lib: Library, data: Bytes)
    ensures var w := if |data| < 65536 then lib.compress(data, 1) else lib.compress(data, 2);
      && (Compress(lib, data).Ok? <==> w.Some? && |w.value| >= 4)
      && (Compress(lib, data).Ok? ==> Compress(lib, data).value == w.value[4..])
  {
  }

  function Decompress(lib: Library, data: Bytes, maxout: nat): (r: Result<Bytes>)
    ensures r.Ok? ==> |r.value| <= maxout && data != []
    ensures r.Err? ==> r.error == ValueError || (r.error == StructError && maxout >= U32_BOUND)
  {
    if data == [] then Err(ValueError)
    else match Pack([U32(maxout)])
         case None => Err(StructError)
         case Some(prefix) =>
           match lib.decompress(prefix + data)
           case None => Err(ValueError)
           case Some(out) => if |out| > maxout then Err(ValueError) else Ok(out)
  }

  /** What the `fastlz` library promises: a compressed buffer is the length prefix followed
      by a payload, and decompressing it gives the data back. */
  ghost predicate Contract(lib: Library) {
    forall d: Bytes, level: nat :: lib.compress(d, level).Some? && |d| < U32_BOUND ==>
      var w := lib.compress(d, level).value;
      PREFIX_SIZE <= |w| && w[..PREFIX_SIZE] == Le(4, |d|) && lib.decompress(w) == Some(d)
  }

  /** Stripping the prefix and rebuilding it is lossless exactly when a payload is left
      after the strip: `decompress` refuses empty input. */
  lemma {:induction false} RoundTrip(lib: Library, d: Bytes)
    requires Contract(lib) && |d| < U32_BOUND && Compress(lib, d).Ok?
    ensures var c := Compress(lib, d).value;
      Decompress(lib, c, |d|) == (if c == [] then Err(ValueError) else Ok(d))
  {
    var w := lib.compress(d, Level(d)).value;
    var fields := [U32(|d|)];
    assert AllFit(fields) && Offset(fields, 1) == Offset(fields, 0) + 4;
    assert Packed(fields, 1) == Packed(fields, 0) + Le(4, |d|) == Le(4, |d|);
    assert Pack(fields) == Some(Le(4, |d|));
    assert w == w[..PREFIX_SIZE] + w[PREFIX_SIZE..];
  }

  /** What the other case looks like: with the library below, nothing compresses to nothing, and
      nothing is refused. */
  lemma {:induction false} EmptyIsRefused()
    ensures Compress(RunLength(), []) == Ok([]) && Decompress(RunLength(), [], 0) == Err(ValueError)
  {
    assert (Le(4, 0) + [])[4..] == [];
  }

  // A library that stores a run of one byte as that byte and anything else as it is: the
  // contract can be met by a codec that never raises and really shrinks some data.

  predicate Uniform(d: Bytes) {
    |d| > 0 && forall i :: 0 <= i < |d| ==> d[i] == d[0]
  }

  function RunLength(): Library {
    Library(
      (d: Bytes, level: nat) => Some(Le(4, |d|) + (if Uniform(d) then [d[0]] else d)),
      (w: Bytes) =>
        if |w| < 4 then None
        else if |w| == 5 then Some(seq(GetU32(w, 0), _ => w[4]))
        else Some(w[4..]))
  }

  lemma {:induction false} RunLengthIsLossless(d: Bytes, level: nat)
    requires |d| < U32_BOUND
    ensures var w := RunLength().compress(d, level).value;
      PREFIX_SIZE <= |w| && w[..PREFIX_SIZE] == Le(4, |d|) && RunLength().decompress(w) == Some(d)
  {
    var w := RunLength().compress(d, level).value;
    assert w[..4] == Le(4, |d|) && w[0..4] == w[..4];
    PowersOf256();
    UnLeOfLe(4, |d|);
    if Uniform(d) {
      assert w[4] == d[0];
      assert seq(|d|, _ => w[4]) == d;
    } else {
      assert |d| != 1;
      assert w[4..] == d;
    }
  }

  lemma {:induction false} ContractIsSatisfiable()
    ensures Contract(RunLength())
    ensures forall d: Bytes :: Compress(RunLength(), d).Ok?
    ensures forall d: Bytes :: Uniform(d) ==> Compress(RunLength(), d) == Ok([d[0]])
  {
    var lib := RunLength();
    forall d: Bytes, level: nat | lib.compress(d, level).Some? && |d| < U32_BOUND
      ensures var w := lib.compress(d, level).value;
        PREFIX_SIZE <= |w| && w[..PREFIX_SIZE] == Le(4, |d|) && lib.decompress(w) == Some(d)
    {
      RunLengthIsLossless(d, level);
    }
    forall d: Bytes | Uniform(d)
      ensures Compress(lib, d) == Ok([d[0]])
    {
      assert (Le(4, |d|) + [d[0]])[4..] == [d[0]];
    }
  }
}
