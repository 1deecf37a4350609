/** Text as Python has it, and its UTF-8 encoding: `str.encode("utf-8")` refuses surrogate code
    points and nothing else. */
module Utf8 {
  import opened Wire

  type CodePoint = x: int | 0 <= x < 0x11_0000
  type Text = seq<CodePoint>

  predicate Surrogate(c: CodePoint) {
    0xD800 <= c < 0xE000
  }

  function EncodeOne(c: CodePoint): (b: Bytes)
    ensures 1 <= |b| <= 4
  {
    if c < 0x80 then [c]
    else if c < 0x800 then [0xC0 + c / 64, 0x80 + c % 64]
    else if c < 0x1_0000 then [0xE0 + c / 4096, 0x80 + c / 64 % 64, 0x80 + c % 64]
    else [0xF0 + c / 26_2144, 0x80 + c / 4096 % 64, 0x80 + c / 64 % 64, 0x80 + c % 64]
  }

  /** None is UnicodeEncodeError, a ValueError. */
  function EncodeText(t: Text): (r: Option<Bytes>)
    ensures r.Some? <==> forall i :: 0 <= i < |t| ==> !(0xD800 <= t[i] <= 0xDFFF)
  {
    if t == [] then Some([])
    else
      assert forall i :: 0 <= i < |t| ==> t[i] == if i == 0 then t[0] else t[1..][i - 1];
      match EncodeText(t[1..])
      case None => None
      case Some(rest) => if Surrogate(t[0]) then None else Some(EncodeOne(t[0]) + rest)
  }

  /** How many bytes a lead byte announces; 0 for a byte that leads nothing. */
  function Announced(lead: byte): nat {
    if lead < 0x80 then 1
    else if lead < 0xC0 then 0
    else if lead < 0xE0 then 2
    else if lead < 0xF0 then 3
    else if lead < 0xF8 then 4
    else 0
  }

  function Tail(b: Bytes, i: nat): int
    requires i < |b|
  {
    var x: int := b[i];
    x - 0x80
  }

  /** The number the bits of a sequence of `Announced` bytes spell. */
  function Spelled(b: Bytes): int
    requires b != [] && |b| == Announced(b[0])
  {
    if |b| == 1 then b[0]
    else if |b| == 2 then (b[0] - 0xC0) * 64 + Tail(b, 1)
    else if |b| == 3 then (b[0] - 0xE0) * 4096 + Tail(b, 1) * 64 + Tail(b, 2)
    else (b[0] - 0xF0) * 26_2144 + Tail(b, 1) * 4096 + Tail(b, 2) * 64 + Tail(b, 3)
  }

  function DecodeText(b: Bytes): Option<Text> {
    if b == [] then Some([])
    else
      var n := Announced(b[0]);
      if n == 0 || |b| < n then None
      else
        var c := Spelled(b[..n]);
        if c < 0 || c >= 0x11_0000 then None
        else match DecodeText(b[n..])
             case None => None
             case Some(rest) => Some([c] + rest)
  }

  lemma {:induction false} SpelledIsEncoded(c: CodePoint)
    ensures Announced(EncodeOne(c)[0]) == |EncodeOne(c)| && Spelled(EncodeOne(c)) == c
  {
    assert c == c / 64 * 64 + c % 64;
    assert c / 64 == c / 4096 * 64 + c / 64 % 64;
    assert c / 4096 == c / 26_2144 * 64 + c / 4096 % 64;
  }

  /** What is encoded reads back as the same text. */
  lemma {:induction false} DecodeOfEncode(t: Text)
    requires EncodeText(t).Some?
    ensures DecodeText(EncodeText(t).value) == Some(t)
  {
    if t != [] {
      var one, rest := EncodeOne(t[0]), EncodeText(t[1..]).value;
      DecodeOfEncode(t[1..]);
      SpelledIsEncoded(t[0]);
      assert (one + rest)[..|one|] == one && (one + rest)[|one|..] == rest;
      assert t == [t[0]] + t[1..];
    }
  }
}
