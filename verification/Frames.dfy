/** NFC AIO frames: a 16-byte header, a payload counted by the header's size field, and an
    extra that is not. The layout of the 44-byte IO payloads, and the peer's reader of a
    client stream (docs/nfc_open.md, docs/nfc_write.md). */
module Frames {
  import opened Wire

  const NFC_AIO_MAGIC: nat := 0xA100_DA7A
  const NFC_AIO_HDR_SIZE: nat := 16

  const NFC_AIO_MSG_ERROR: nat := 1
  const NFC_AIO_MSG_OPEN_SESSION: nat := 2
  const NFC_AIO_MSG_CLOSE_SESSION: nat := 3
  const NFC_AIO_MSG_OPEN_FILE: nat := 4
  const NFC_AIO_MSG_CLOSE_FILE: nat := 5
  const NFC_AIO_MSG_IO: nat := 7
  const NFC_AIO_MSG_SET_SOCK_OPTS: nat := 9
  const NFC_AIO_MSG_SET_RES_POOL: nat := 22

  const NFC_AIO_IO_WRITE: nat := 0
  const NFC_AIO_IO_READ: nat := 1
  const NFC_COMPRESSION_NONE: nat := 0
  const NFC_COMPRESSION_FASTLZ: nat := 2

  // ---------- headers ----------

  function HdrFields(msgType: int, size: int, opId: int): seq<Field> {
    [U32(NFC_AIO_MAGIC), U32(msgType), U32(size), U32(opId)]
  }

  /** `_pack_aio_hdr` */
  function PackAioHdr(msgType: int, size: int, opId: int): (r: Option<Bytes>)
    ensures r.Some? <==> 0 <= msgType < U32_BOUND && 0 <= size < U32_BOUND && 0 <= opId < U32_BOUND
    ensures r.Some? ==> |r.value| == NFC_AIO_HDR_SIZE
  {
    var fs := HdrFields(msgType, size, opId);
    assert AllFit(fs) <==> fs[0].Fits() && fs[1].Fits() && fs[2].Fits() && fs[3].Fits();
    Pack(fs)
  }

  datatype AioHdr = AioHdr(msgType: nat, size: nat, opId: nat)

  /** The header at the front of `b`, without the check on the message type. */
  function ReadHdr(b: Bytes): (r: Result<AioHdr>)
    requires NFC_AIO_HDR_SIZE <= |b|
    ensures r.Err? ==> r.error == ProtocolError
  {
    if GetU32(b, 0) != NFC_AIO_MAGIC then Err(ProtocolError)
    else Ok(AioHdr(GetU32(b, 4), GetU32(b, 8), GetU32(b, 12)))
  }

  /** `_unpack_aio_hdr` */
  function UnpackAioHdr(b: Bytes): Result<AioHdr>
    requires NFC_AIO_HDR_SIZE <= |b|
  {
    match ReadHdr(b)
    case Err(e) => Err(e)
    case Ok(h) => if h.msgType == NFC_AIO_MSG_ERROR then Err(ProtocolError) else Ok(h)
  }

  lemma {:induction false} HdrRoundTrip(msgType: nat, size: nat, opId: nat, rest: Bytes)
    requires PackAioHdr(msgType, size, opId).Some?
    ensures ReadHdr(PackAioHdr(msgType, size, opId).value + rest) == Ok(AioHdr(msgType, size, opId))
  {
    var fs := HdrFields(msgType, size, opId);
    assert Offset(fs, 1) == 4 && Offset(fs, 2) == 8 && Offset(fs, 3) == 12;
    UnpackOfPack(fs, rest, 0);
    UnpackOfPack(fs, rest, 1);
    UnpackOfPack(fs, rest, 2);
    UnpackOfPack(fs, rest, 3);
  }

  /** The four fields of a header at their documented offsets. */
  lemma {:induction false} HdrLayout(msgType: nat, size: nat, opId: nat)
    requires PackAioHdr(msgType, size, opId).Some?
    ensures var b := PackAioHdr(msgType, size, opId).value;
      && |b| == 16 && GetU32(b, 0) == 0xA100_DA7A && GetU32(b, 4) == msgType
      && GetU32(b, 8) == size && GetU32(b, 12) == opId
  {
    var fs := HdrFields(msgType, size, opId);
    assert Offset(fs, 1) == 4 && Offset(fs, 2) == 8 && Offset(fs, 3) == 12;
    UnpackOfPack(fs, [], 0);
    UnpackOfPack(fs, [], 1);
    UnpackOfPack(fs, [], 2);
    UnpackOfPack(fs, [], 3);
    assert Pack(fs).value + [] == Pack(fs).value;
  }

  lemma {:induction false} HdrIsPacked(b: Bytes)
    requires NFC_AIO_HDR_SIZE <= |b| && ReadHdr(b).Ok?
    ensures var h := ReadHdr(b).value; PackAioHdr(h.msgType, h.size, h.opId) == Some(b[..16])
  {
    var h := ReadHdr(b).value;
    var fs := HdrFields(h.msgType, h.size, h.opId);
    assert AllFit(fs);
    LeOfUnLe(b[0..4]);
    LeOfUnLe(b[4..8]);
    LeOfUnLe(b[8..12]);
    LeOfUnLe(b[12..16]);
    assert Le(4, NFC_AIO_MAGIC) == b[0..4] && Le(4, h.msgType) == b[4..8];
    assert Le(4, h.size) == b[8..12] && Le(4, h.opId) == b[12..16];
    hide GetU32, UnLe, Le, ReadHdr;
    assert Packed(fs, 1) == Packed(fs, 0) + b[0..4] == b[..4];
    assert Packed(fs, 2) == Packed(fs, 1) + b[4..8] == b[..8];
    assert Packed(fs, 3) == Packed(fs, 2) + b[8..12] == b[..12];
    assert Packed(fs, 4) == Packed(fs, 3) + b[12..16] == b[..16];
  }

  // ---------- IO payloads ----------

  /** One fragment of a write request; a read reply's fragment has the same layout. */
  function FragmentFields(handle: int, opcode: int, offset: int, total: int, dest: int,
                          chunk: int, extra: int): seq<Field> {
    [U64(handle), U64(opcode), U64(offset), U32(total), U32(dest), U32(chunk), U32(extra), U32(0)]
  }

  function ReadFields(handle: int, opcode: int, offset: int, length: int): seq<Field> {
    [U64(handle), U64(opcode), U64(offset), U64(length), U32(length), U32(length), U32(0)]
  }

  /** `direction | (ctype << 32)` for the directions 0 and 1 */
  function Opcode(direction: nat, ctype: int): int {
    direction + ctype * U32_BOUND
  }

  lemma {:induction false} FragmentLayout(handle: int, opcode: int, offset: int, total: int, dest: int,
                       chunk: int, extra: int, rest: Bytes)
    requires Pack(FragmentFields(handle, opcode, offset, total, dest, chunk, extra)).Some?
    ensures var p := Pack(FragmentFields(handle, opcode, offset, total, dest, chunk, extra)).value;
      && |p| == 44
      && GetU64(p + rest, 0) == handle && GetU64(p + rest, 8) == opcode
      && GetU64(p + rest, 16) == offset && GetU32(p + rest, 24) == total
      && GetU32(p + rest, 28) == dest && GetU32(p + rest, 32) == chunk
      && GetU32(p + rest, 36) == extra && GetU32(p + rest, 40) == 0
  {
    var fs := FragmentFields(handle, opcode, offset, total, dest, chunk, extra);
    assert Offset(fs, 1) == 8 && Offset(fs, 2) == 16 && Offset(fs, 3) == 24 && Offset(fs, 4) == 28
        && Offset(fs, 5) == 32 && Offset(fs, 6) == 36 && Offset(fs, 7) == 40 && Offset(fs, 8) == 44;
    UnpackOfPack(fs, rest, 0);
    UnpackOfPack(fs, rest, 1);
    UnpackOfPack(fs, rest, 2);
    UnpackOfPack(fs, rest, 3);
    UnpackOfPack(fs, rest, 4);
    UnpackOfPack(fs, rest, 5);
    UnpackOfPack(fs, rest, 6);
    UnpackOfPack(fs, rest, 7);
  }

  lemma {:induction false} ReadRequestLayout(handle: int, opcode: int, offset: int, length: int, rest: Bytes)
    requires Pack(ReadFields(handle, opcode, offset, length)).Some?
    ensures var p := Pack(ReadFields(handle, opcode, offset, length)).value;
      && |p| == 44
      && GetU64(p + rest, 0) == handle && GetU64(p + rest, 8) == opcode
      && GetU64(p + rest, 16) == offset && GetU64(p + rest, 24) == length
      && GetU32(p + rest, 32) == length && GetU32(p + rest, 36) == length && GetU32(p + rest, 40) == 0
  {
    var fs := ReadFields(handle, opcode, offset, length);
    assert Offset(fs, 1) == 8 && Offset(fs, 2) == 16 && Offset(fs, 3) == 24 && Offset(fs, 4) == 32
        && Offset(fs, 5) == 36 && Offset(fs, 6) == 40 && Offset(fs, 7) == 44;
    UnpackOfPack(fs, rest, 0);
    UnpackOfPack(fs, rest, 1);
    UnpackOfPack(fs, rest, 2);
    UnpackOfPack(fs, rest, 3);
    UnpackOfPack(fs, rest, 4);
    UnpackOfPack(fs, rest, 5);
    UnpackOfPack(fs, rest, 6);
  }

  /** A fragment at offset 0 that is the whole request cannot be told from a request whose
      length is one 64-bit field; any other fragment can. */
  lemma {:induction false} SingleFragmentLooksLikeLength(handle: int, opcode: int, offset: int, total: int,
                                      dest: int, chunk: int, extra: int)
    requires Pack(FragmentFields(handle, opcode, offset, total, dest, chunk, extra)).Some?
    ensures var p := Pack(FragmentFields(handle, opcode, offset, total, dest, chunk, extra)).value;
      |p| == 44 && (GetU64(p, 24) == total <==> dest == 0)
  {
    FragmentLayout(handle, opcode, offset, total, dest, chunk, extra, []);
    var p := Pack(FragmentFields(handle, opcode, offset, total, dest, chunk, extra)).value;
    assert p + [] == p;
    U64IsTwoU32(p, 24);
  }

  // ---------- frames ----------

  datatype AioFrame = AioFrame(msgType: nat, opId: nat, payload: Bytes, extra: Bytes) {
    predicate Sendable() {
      msgType < U32_BOUND && opId < U32_BOUND && |payload| < U32_BOUND
    }

    function Size(): nat {
      NFC_AIO_HDR_SIZE + |payload| + |extra|
    }

    function Encode(): (b: Bytes)
      requires Sendable()
      ensures |b| == Size()
    {
      PackAioHdr(msgType, |payload|, opId).value + payload + extra
    }
  }

  ghost predicate AllSendable(fs: seq<AioFrame>) {
    forall i :: 0 <= i < |fs| ==> fs[i].Sendable()
  }

  ghost function EncodeAll(fs: seq<AioFrame>): Bytes
    requires AllSendable(fs)
  {
    if fs == [] then [] else fs[0].Encode() + EncodeAll(fs[1..])
  }

  lemma {:induction false} EncodeAllConcat(a: seq<AioFrame>, b: seq<AioFrame>)
    requires AllSendable(a) && AllSendable(b)
    ensures AllSendable(a + b)
    ensures EncodeAll(a + b) == EncodeAll(a) + EncodeAll(b)
  {
    if a == [] {
      assert a + b == b;
    } else {
      EncodeAllConcat(a[1..], b);
      assert (a + b)[1..] == a[1..] + b;
    }
  }

  lemma {:induction false} EncodeParts(f: AioFrame, rest: Bytes)
    requires f.Sendable()
    ensures var b := f.Encode() + rest; var n := 16 + |f.payload|;
      && |b| >= 16 && ReadHdr(b) == Ok(AioHdr(f.msgType, |f.payload|, f.opId))
      && b[16..n] == f.payload && b[n..n + |f.extra|] == f.extra && b[f.Size()..] == rest
  {
    hide ReadHdr, PackAioHdr;
    var h := PackAioHdr(f.msgType, |f.payload|, f.opId).value;
    HdrRoundTrip(f.msgType, |f.payload|, f.opId, f.payload + f.extra + rest);
    FourParts(h, f.payload, f.extra, rest);
  }

  lemma {:induction false} FourParts(h: Bytes, p: Bytes, e: Bytes, rest: Bytes)
    requires |h| == 16
    ensures var b := h + p + e + rest; var n := 16 + |p|;
      && b == h + (p + e + rest) && b[16..n] == p && b[n..n + |e|] == e && b[n + |e|..] == rest
  {
  }

  // ---------- the peer's reader of a client stream ----------

  /** How many bytes of extra follow a request's payload, which only OPEN_FILE (4) and a write
      (type 7, direction 0) have; None when the payload is too
      short to say. */
  function ExtraLen(msgType: nat, payload: Bytes): Option<nat> {
    if msgType == 4 then
      if |payload| < 4 then None else Some(GetU32(payload, 0))
    else if msgType == 7 then
      if |payload| < 40 then None
      else if GetU32(payload, 8) == 0 then Some(GetU32(payload, 36))
      else Some(0)
    else Some(0)
  }

  ghost predicate WellFormed(f: AioFrame) {
    f.Sendable() && ExtraLen(f.msgType, f.payload) == Some(|f.extra|)
  }

  ghost predicate AllWellFormed(fs: seq<AioFrame>) {
    forall i :: 0 <= i < |fs| ==> WellFormed(fs[i])
  }

  /** The frame at the front of `b`. */
  function ParseOne(b: Bytes): (r: Option<AioFrame>)
    ensures r.Some? ==> r.value.Size() <= |b|
  {
    if |b| < 16 || ReadHdr(b).Err? then None
    else
      var h := ReadHdr(b).value;
      if |b| < 16 + h.size then None
      else
        var payload := b[16..16 + h.size];
        match ExtraLen(h.msgType, payload)
        case None => None
        case Some(n) =>
          if |b| < 16 + h.size + n then None
          else Some(AioFrame(h.msgType, h.opId, payload, b[16 + h.size..16 + h.size + n]))
  }

  function Parse(b: Bytes): Option<seq<AioFrame>> {
    if b == [] then Some([])
    else match ParseOne(b)
         case None => None
         case Some(f) =>
           match Parse(b[f.Size()..])
           case None => None
           case Some(fs) => Some([f] + fs)
  }

  lemma {:induction false} ParseOneOfEncode(f: AioFrame, rest: Bytes)
    requires WellFormed(f)
    ensures ParseOne(f.Encode() + rest) == Some(f)
  {
    EncodeParts(f, rest);
  }

  lemma {:induction false} EncodeOfParseOne(b: Bytes)
    requires ParseOne(b).Some?
    ensures var f := ParseOne(b).value; WellFormed(f) && b == f.Encode() + b[f.Size()..]
  {
    hide ReadHdr, ExtraLen, PackAioHdr;
    var f := ParseOne(b).value;
    HdrIsPacked(b);
    assert f.Encode() == b[..16] + f.payload + f.extra;
  }

  lemma {:induction false} ParseStep(b: Bytes, f: AioFrame, tail: Bytes)
    requires ParseOne(b) == Some(f) && b[f.Size()..] == tail && Parse(tail).Some?
    ensures Parse(b) == Some([f] + Parse(tail).value)
  {
  }

  /** Concatenated frames are read back exactly, although no header counts its extra. */
  lemma {:induction false} ParseOfEncode(fs: seq<AioFrame>)
    requires AllWellFormed(fs)
    ensures AllSendable(fs) && Parse(EncodeAll(fs)) == Some(fs)
  {
    if fs != [] {
      var f, tail := fs[0], EncodeAll(fs[1..]);
      var b := f.Encode() + tail;
      assert ParseOne(b) == Some(f) by { ParseOneOfEncode(f, tail); }
      ParseOfEncode(fs[1..]);
      ParseStep(b, f, tail);
      assert [f] + fs[1..] == fs;
    }
  }

  /** And only the encoding of a frame list is read as that list, so a byte stream has at
      most one reading. */
  lemma {:induction false} EncodeOfParse(b: Bytes)
    requires Parse(b).Some?
    ensures AllWellFormed(Parse(b).value)
    ensures AllSendable(Parse(b).value) && EncodeAll(Parse(b).value) == b
    decreases |b|
  {
    if b != [] {
      var f := ParseOne(b).value;
      EncodeOfParseOne(b);
      EncodeOfParse(b[f.Size()..]);
      assert Parse(b).value[1..] == Parse(b[f.Size()..]).value;
    }
  }
}
