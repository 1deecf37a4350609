/** `_handshake`, `_aio_prepare` and `open_disk` step by step on a socket, proved to have the
    effect `Opening` gives, or that effect cut short by a failing `sendall`; and on any
    failure the socket is closed. */
module OpenDisks {
  import opened Wire
  import opened Frames
  import opened Sockets
  import opened NfcDisks
  import opened Opening
  import opened Utf8
  import FastLz

  /** A step ran to its effect, or a failing `sendall` cut it short. */
  ghost predicate Ran<T>(eff: Client.Effect<T>, r: Result<T>, sent0: Bytes, sent: Bytes,
                             pos0: nat, pos: nat) {
    if r == Err(OsError) then CutShort(sent0, sent, eff.sent) && pos0 <= pos <= eff.pos
    else r == eff.result && sent == sent0 + eff.sent && pos == eff.pos
  }

  method RecvMsg(sock: Socket, want: nat) returns (r: Result<Bytes>)
    requires sock.Valid()
    modifies sock`pos
    ensures sock.Valid()
    ensures var eff := Opening.RecvMsg(want, sock.inbox, old(sock.pos));
      r == eff.result && sock.pos == eff.pos
  {
    var frame := sock.Recvn(Client.NFC_MSG_SIZE);
    if frame.Err? {
      return Err(frame.error);
    }
    r := if GetU32(frame.value, 0) != want then Err(ProtocolError) else Ok(frame.value[4..]);
  }

  method Greet(sock: Socket) returns (r: Result<()>)
    requires sock.Valid()
    modifies sock`pos, sock`sent
    ensures sock.Valid()
    ensures Ran(Opening.Greet(sock.inbox, old(sock.pos)), r, old(sock.sent), sock.sent,
                old(sock.pos), sock.pos)
  {
    hide Msg, Opening.RecvMsg;
    var hello, params := Msg(NFC_MSG_HANDSHAKE, PLAIN_TEXT), Msg(NFC_MSG_SESSION_PARAMS, []);
    assert GREETING == [] + (hello + params) && GREETING == hello + (params + []);
    var ok := sock.SendAll(hello);
    if !ok {
      Cut(old(sock.sent), [], hello, params, sock.sent, GREETING);
      return Err(OsError);
    }
    ok := sock.SendAll(params);
    if !ok {
      Cut(old(sock.sent), hello, params, [], sock.sent, GREETING);
      return Err(OsError);
    }
    var reply := RecvMsg(sock, NFC_MSG_SESSION_PARAMS_REPLY);
    assert old(sock.sent) + hello + params == old(sock.sent) + GREETING;
    r := if reply.Ok? then Ok(()) else Err(reply.error);
  }

  method AgreeVersion(sock: Socket, version: int) returns (r: Result<()>)
    requires sock.Valid()
    modifies sock`pos, sock`sent
    ensures sock.Valid()
    ensures Ran(Opening.AgreeVersion(version, sock.inbox, old(sock.pos)), r, old(sock.sent),
                sock.sent, old(sock.pos), sock.pos)
  {
    hide Msg, Opening.RecvMsg, Le;
    var fields := [U32(version)];
    if Pack(fields).None? {
      return Err(StructError);
    }
    assert fields[0].Fits();
    hide Pack;
    var ok := sock.SendAll(Msg(NFC_MSG_VERSION, Le(4, version)));
    if !ok {
      return Err(OsError);
    }
    var reply := RecvMsg(sock, NFC_MSG_VERSION);
    if reply.Err? {
      return Err(reply.error);
    }
    r := if GetU32(reply.value, 0) < 3 then Err(ProtocolError) else Ok(());
  }

  method Introduce(sock: Socket, name: string, opName: string) returns (r: Result<()>)
    requires sock.Valid()
    modifies sock`pos, sock`sent
    ensures sock.Valid()
    ensures Ran(Opening.Introduce(name, opName, sock.inbox, old(sock.pos)), r, old(sock.sent),
                sock.sent, old(sock.pos), sock.pos)
  {
    hide Msg, Opening.RecvMsg, Le, Ascii;
    var n, o := Ascii(name), Ascii(opName);
    if n.None? || o.None? {
      return Err(ValueError);
    }
    if |n.value| >= U32_BOUND || |o.value| >= U32_BOUND {
      return Err(StructError);
    }
    var ok := SendIntroduction(sock, n.value, o.value);
    if !ok {
      return Err(OsError);
    }
    var reply := RecvMsg(sock, NFC_MSG_AIO_SESSION_OPEN);
    r := if reply.Ok? then Ok(()) else Err(reply.error);
  }

  /** The five sends of the introduction; an empty name is an empty `sendall`. */
  method SendIntroduction(sock: Socket, name: Bytes, opName: Bytes) returns (ok: bool)
    requires sock.Valid()
    modifies sock`sent
    ensures sock.Valid()
    ensures ok ==> sock.sent == old(sock.sent) + Introduction(name, opName)
    ensures !ok ==> CutShort(old(sock.sent), sock.sent, Introduction(name, opName))
  {
    hide Msg, Le, CutShort;
    var data := Msg(NFC_MSG_CONNECTION_DATA, Le(4, |name|) + Le(4, |opName|));
    var features := Msg(NFC_MSG_SESSION_FEATURES, Le(4, NFC_SESSION_FEATURE_INTERRUPTION_SWITCH));
    var open := Msg(NFC_MSG_AIO_SESSION_OPEN, []);
    ghost var tail3 := features + open;
    ghost var tail2 := opName + tail3;
    ghost var tail1 := name + tail2;
    ghost var whole, before := Introduction(name, opName), sock.sent;
    assert whole == data + tail1;
    hide Introduction;
    ok := sock.SendAll(data);
    if !ok {
      Cut(before, [], data, tail1, sock.sent, whole);
      return;
    }
    ok := sock.SendAll(name);
    if !ok {
      Cut(before, data, name, tail2, sock.sent, whole);
      return;
    }
    ok := sock.SendAll(opName);
    if !ok {
      Cut(before, data + name, opName, tail3, sock.sent, whole);
      return;
    }
    ok := sock.SendAll(features);
    if !ok {
      Cut(before, data + name + opName, features, open, sock.sent, whole);
      return;
    }
    ok := sock.SendAll(open);
    Whole(before, data, name, opName, features, open);
    if !ok {
      Cut(before, data + name + opName + features, open, [], sock.sent, whole);
    }
  }

  lemma {:induction false} Cut(before: Bytes, done: Bytes, part: Bytes, rest: Bytes, after: Bytes,
                               whole: Bytes)
    requires whole != [] && whole == done + (part + rest)
    requires before + done <= after <= before + done + part
    ensures CutShort(before, after, whole)
  {
    assert before + whole == before + done + part + rest;
  }

  lemma {:induction false} Whole(before: Bytes, a: Bytes, b: Bytes, c: Bytes, d: Bytes, e: Bytes)
    ensures before + a + b + c + d + e == before + (a + (b + (c + (d + e))))
    ensures a + (b + (c + (d + e))) == a + b + c + d + (e + [])
  {
  }

  // ---------- steps in a row ----------

  lemma {:induction false} RanThen<S, T>(e1: Client.Effect<S>, r1: Result<S>, e2: Client.Effect<T>,
                                         r2: Result<T>, sent0: Bytes, sent1: Bytes, sent2: Bytes,
                                         pos0: nat, pos1: nat, pos2: nat)
    requires r1.Ok? && pos0 <= pos1
    requires Ran(e1, r1, sent0, sent1, pos0, pos1) && Ran(e2, r2, sent1, sent2, pos1, pos2)
    ensures Ran(Then(e1, e2), r2, sent0, sent2, pos0, pos2)
  {
    assert sent0 + e1.sent + e2.sent == sent0 + (e1.sent + e2.sent);
  }

  lemma {:induction false} RanFailed<S, T>(e1: Client.Effect<S>, r1: Result<S>, e2: Client.Effect<T>,
                                           sent0: Bytes, sent1: Bytes, pos0: nat, pos1: nat)
    requires r1.Err? && e1.pos <= e2.pos
    requires Ran(e1, r1, sent0, sent1, pos0, pos1)
    ensures Ran(Then(e1, e2), Err(r1.error), sent0, sent1, pos0, pos1)
  {
    assert sent0 + e1.sent + e2.sent == sent0 + (e1.sent + e2.sent);
  }

  /** `_handshake` */
  method Handshake(sock: Socket, name: string, opName: string, version: int)
    returns (r: Result<()>)
    requires sock.Valid()
    modifies sock`pos, sock`sent
    ensures sock.Valid()
    ensures Ran(Opening.Handshake(name, opName, version, sock.inbox, old(sock.pos)), r,
                old(sock.sent), sock.sent, old(sock.pos), sock.pos)
  {
    hide Opening.Greet, Opening.AgreeVersion, Opening.Introduce, Then;
    ghost var s, sent0, pos0 := sock.inbox, sock.sent, sock.pos;
    ghost var greeting := Opening.Greet(s, pos0);
    ghost var offer := Opening.AgreeVersion(version, s, greeting.pos);
    ghost var agreed := Then(greeting, offer);
    ThenFacts(greeting, offer);
    ghost var names := Opening.Introduce(name, opName, s, agreed.pos);
    r := Greet(sock);
    if r.Err? {
      RanFailed(greeting, r, offer, sent0, sock.sent, pos0, sock.pos);
      RanFailed(agreed, r, names, sent0, sock.sent, pos0, sock.pos);
      return;
    }
    ghost var r1, sent1, pos1 := r, sock.sent, sock.pos;
    r := AgreeVersion(sock, version);
    RanThen(greeting, r1, offer, r, sent0, sent1, sock.sent, pos0, pos1, sock.pos);
    if r.Err? {
      RanFailed(agreed, r, names, sent0, sock.sent, pos0, sock.pos);
      return;
    }
    ghost var r2, sent2, pos2 := r, sock.sent, sock.pos;
    r := Introduce(sock, name, opName);
    RanThen(agreed, r2, names, r, sent0, sent2, sock.sent, pos0, pos2, sock.pos);
  }

  lemma {:induction false} ThenFacts<S, T>(e1: Client.Effect<S>, e2: Client.Effect<T>)
    ensures e1.result.Ok? ==> Then(e1, e2).pos == e2.pos && Then(e1, e2).opId == e2.opId
    ensures e1.result.Err? ==> Then(e1, e2).pos == e1.pos
    ensures Then(e1, e2).result.Ok? <==> e1.result.Ok? && e2.result.Ok?
  {
  }

  /** `_aio_prepare` */
  method Prepare(disk: NfcDisk) returns (r: Result<Bytes>)
    requires disk.sock.Valid() && disk.opId == 0
    modifies disk`opId, disk.sock`pos, disk.sock`sent
    ensures disk.sock.Valid()
    ensures var eff := Opening.Prepare(disk.aioBufferSize, disk.aioBufferCount, disk.sock.inbox,
                                       old(disk.sock.pos));
      && Ran(eff, r, old(disk.sock.sent), disk.sock.sent, old(disk.sock.pos), disk.sock.pos)
      && (r.Ok? ==> disk.opId == 3)
  {
    hide Client.Roundtrip, Then, Pack, Le, Zeros;
    var payload := Pack(PrepareFields(disk.aioBufferSize, disk.aioBufferCount));
    if payload.None? {
      return Err(StructError);
    }
    ghost var s, sent0, pos0 := disk.sock.inbox, disk.sock.sent, disk.sock.pos;
    ghost var a := Client.Roundtrip(NFC_AIO_MSG_OPEN_SESSION, payload.value, [], 0, s, pos0);
    ghost var b := Client.Roundtrip(NFC_AIO_MSG_SET_SOCK_OPTS, Zeros(12), [], 1, s, a.pos);
    ghost var ab := Then(a, b);
    ThenFacts(a, b);
    ghost var c := Client.Roundtrip(NFC_AIO_MSG_SET_RES_POOL, Le(4, 1), [], 2, s, ab.pos);
    r := disk.Roundtrip(NFC_AIO_MSG_OPEN_SESSION, payload.value, []);
    if r.Err? {
      RanFailed(a, r, b, sent0, disk.sock.sent, pos0, disk.sock.pos);
      RanFailed(ab, r, c, sent0, disk.sock.sent, pos0, disk.sock.pos);
      return;
    }
    ghost var r1, sent1, pos1 := r, disk.sock.sent, disk.sock.pos;
    r := disk.Roundtrip(NFC_AIO_MSG_SET_SOCK_OPTS, Zeros(12), []);
    RanThen(a, r1, b, r, sent0, sent1, disk.sock.sent, pos0, pos1, disk.sock.pos);
    if r.Err? {
      RanFailed(ab, r, c, sent0, disk.sock.sent, pos0, disk.sock.pos);
      return;
    }
    ghost var r2, sent2, pos2 := r, disk.sock.sent, disk.sock.pos;
    r := disk.Roundtrip(NFC_AIO_MSG_SET_RES_POOL, Le(4, 1), []);
    RanThen(ab, r2, c, r, sent0, sent2, disk.sock.sent, pos0, pos2, disk.sock.pos);
  }

  method OpenFile(disk: NfcDisk, path: Text, readOnly: bool) returns (r: Result<Opened>)
    requires disk.sock.Valid() && disk.opId == 3
    modifies disk`opId, disk.sock`pos, disk.sock`sent
    ensures disk.sock.Valid()
    ensures var eff := Opening.OpenFile(path, readOnly, disk.sock.inbox, old(disk.sock.pos));
      && Ran(eff, r, old(disk.sock.sent), disk.sock.sent, old(disk.sock.pos), disk.sock.pos)
      && (r.Ok? ==> disk.opId == eff.opId && r.value.sectorSize >= 1)
  {
    hide Client.Roundtrip, Pack, Zeros, EncodeText;
    var encoded := EncodeText(path);
    if encoded.None? {
      return Err(ValueError);
    }
    var payload := Pack(OpenFields(|encoded.value|, OpenFlags(readOnly)));
    if payload.None? {
      return Err(StructError);
    }
    var reply := disk.Roundtrip(NFC_AIO_MSG_OPEN_FILE, payload.value + Zeros(36), encoded.value);
    r := if reply.Ok? then ParseOpenReply(reply.value) else Err(reply.error);
  }

  /** A disk as it is before the reply to OPEN_FILE has been put into it. */
  ghost predicate Made(disk: NfcDisk, sock: Socket, lib: FastLz.Library, a: OpenArgs)
    requires CheckArgs(a).None?
    reads disk
  {
    && disk.sock == sock && !disk.closed && disk.aioBufferCount == a.bufferCount
    && disk.Params() == Requests.Session(lib, 0, NFC_SECTOR_SIZE, a.compression, a.bufferSize)
  }

  /** The body of `open_disk`'s try block. */
  method TryOpen(sock: Socket, lib: FastLz.Library, a: OpenArgs)
    returns (r: Result<Opened>, disk: NfcDisk?)
    requires sock.Valid() && CheckArgs(a).None?
    modifies sock`pos, sock`sent
    ensures sock.Valid()
    ensures var eff := Open(a, sock.inbox, old(sock.pos));
      && Ran(eff, r, old(sock.sent), sock.sent, old(sock.pos), sock.pos)
      && (r.Ok? ==>
            disk != null && fresh(disk) && Made(disk, sock, lib, a) && disk.opId == eff.opId
            && r.value.sectorSize >= 1)
  {
    hide Opening.Handshake, Opening.Prepare, Opening.OpenFile, Then;
    ghost var s, sent0, pos0 := sock.inbox, sock.sent, sock.pos;
    ghost var shake := Opening.Handshake(a.name, a.opName, a.version, s, pos0);
    ghost var prep := Opening.Prepare(a.bufferSize, a.bufferCount, s, shake.pos);
    ghost var prepared := Then(shake, prep);
    ThenFacts(shake, prep);
    ghost var file := Opening.OpenFile(a.path, a.readOnly, s, prepared.pos);
    ThenFacts(prepared, file);
    disk := null;
    var shaken := Handshake(sock, a.name, a.opName, a.version);
    if shaken.Err? {
      RanFailed(shake, shaken, prep, sent0, sock.sent, pos0, sock.pos);
      RanFailed(prepared, Err(shaken.error), file, sent0, sock.sent, pos0, sock.pos);
      r := Err(shaken.error);
      return;
    }
    ghost var sent1, pos1 := sock.sent, sock.pos;
    disk := new NfcDisk(sock, lib, 0, NFC_SECTOR_SIZE, a.compression, a.bufferSize, a.bufferCount);
    var ready := Prepare(disk);
    RanThen(shake, shaken, prep, ready, sent0, sent1, sock.sent, pos0, pos1, sock.pos);
    if ready.Err? {
      RanFailed(prepared, ready, file, sent0, sock.sent, pos0, sock.pos);
      r := Err(ready.error);
      return;
    }
    ghost var sent2, pos2 := sock.sent, sock.pos;
    r := OpenFile(disk, a.path, a.readOnly);
    RanThen(prepared, ready, file, r, sent0, sent2, sock.sent, pos0, pos2, sock.pos);
  }

  /** `open_disk` on the socket it took over. A disk it returns is valid, holds the handle and
      sector size of the reply and stands at a frame boundary; on any failure after the
      argument checks the socket is closed. */
  method OpenDisk(sock: Socket, lib: FastLz.Library, a: OpenArgs) returns (r: Result<NfcDisk>)
    requires sock.Valid()
    modifies sock`pos, sock`sent, sock.table
    ensures sock.Valid()
    ensures CheckArgs(a).Some? ==>
      && r == Err(CheckArgs(a).value) && sock.sent == old(sock.sent) && sock.pos == old(sock.pos)
      && sock.table.open == old(sock.table.open)
    ensures a.bufferSize < 1 || a.bufferCount < 1 ==> r == Err(ValueError)
    ensures a.bufferSize >= 1 && a.bufferCount >= 1 && a.compression !in {0, 2} ==>
      r == Err(NotImplementedError)
    ensures CheckArgs(a).Some? <==>
      a.bufferSize < 1 || a.bufferCount < 1 || a.compression !in {0, 2}
    ensures CheckArgs(a).None? ==>
      var eff := Open(a, sock.inbox, old(sock.pos));
      match r
      case Ok(disk) =>
        && eff.result.Ok? && fresh(disk) && disk.Valid() && disk.sock == sock && !disk.closed
        && disk.Params() == Requests.Session(lib, eff.result.value.handle,
                                             eff.result.value.sectorSize, a.compression, a.bufferSize)
        && disk.opId == eff.opId && sock.table.open == old(sock.table.open)
        && sock.sent == old(sock.sent) + eff.sent && sock.pos == eff.pos
      case Err(e) =>
        && sock.table.open == old(sock.table.open) - {sock}
        && Ran(eff, Err(e), old(sock.sent), sock.sent, old(sock.pos), sock.pos)
  {
    hide Open;
    var refused := CheckArgs(a);
    if refused.Some? {
      return Err(refused.value);
    }
    var reply, disk := TryOpen(sock, lib, a);
    if reply.Err? {
      sock.Close();
      return Err(reply.error);
    }
    disk.handle := reply.value.handle;
    disk.sectorSize := reply.value.sectorSize;
    r := Ok(disk);
  }
}
