/** The results of `Runs` and `Connections` carried over to the object: a caller who makes any
    list of calls on an `NfcDisk` connected to a conforming server sees a plain array of bytes. */
module Sessions {
  import opened Wire
  import opened Frames
  import opened Sockets
  import opened SkipMode
  import opened NfcDisks
  import opened Serving
  import opened Runs
  import opened Opening
  import opened OpenDisks
  import opened Connections

  /** One call. A buffer passed to `readinto` is filled in place, and a skipping one rebuilt
      from what was packed into it. */
  method Call(disk: NfcDisk, op: Op) returns (answer: Answer, cut: bool)
    requires disk.Valid()
    modifies disk`opId, disk.sock`pos, disk.sock`sent
    ensures disk.Valid()
    ensures var s := Step(disk.Params(), old(disk.opId), op, disk.sock.inbox, old(disk.sock.pos));
      if cut then
        && answer == Raised(OsError) && s.sent != [] && disk.opId == s.opId && disk.sock.pos == old(disk.sock.pos)
        && old(disk.sock.sent) <= disk.sock.sent <= old(disk.sock.sent) + s.sent
      else
        && s == Stepped(disk.opId, s.sent, disk.sock.pos, answer)
        && disk.sock.sent == old(disk.sock.sent) + s.sent
  {
    hide Client.ReadInto, Client.Read, Client.Write, Rebuild;
    match op
    case ReadOp(start, num) =>
      var r := disk.Read(start, num);
      cut := r == Err(OsError);
      answer := if r.Ok? then Data(r.value) else Raised(r.error);
    case ReadIntoOp(start, num, bytes, readOnly, skip) =>
      var buf := new byte[|bytes|](i requires 0 <= i < |bytes| => bytes[i]);
      assert buf[..] == bytes;
      var r := disk.ReadInto(start, num, buf, readOnly, skip);
      cut := r == Err(OsError);
      if r.Err? {
        answer := Raised(r.error);
      } else if skip {
        var out := RebuildSkip(disk.lib, buf[..], r.value);
        answer := if out.Err? then Raised(out.error)
                  else Data(out.value + buf[Min(|out.value|, buf.Length)..]);
      } else {
        answer := Data(buf[..]);
      }
    case WriteOp(start, num, data) =>
      var r := disk.Write(start, num, data);
      cut := r == Err(OsError);
      answer := if r.Ok? then Stored else Raised(r.error);
  }

  /** Call after call, until the list ends or a `sendall` fails: the answers, the operation
      ids, the bytes sent and the stream position are those of the run; when a send failed, of
      the run of the calls before it, and of the call it cut short only a prefix went out. */
  method Calls(disk: NfcDisk, ops: seq<Op>) returns (answers: seq<Answer>, cut: bool)
    requires disk.Valid()
    modifies disk`opId, disk.sock`pos, disk.sock`sent
    ensures disk.Valid()
    ensures |answers| <= |ops| && (cut <==> |answers| < |ops|)
    ensures var run := Run(disk.Params(), old(disk.opId), ops[..|answers|], disk.sock.inbox,
                           old(disk.sock.pos));
      && answers == run.answers && disk.sock.pos == run.pos
      && if cut then
           var lost := Step(disk.Params(), run.opId, ops[|answers|], disk.sock.inbox, run.pos);
           && old(disk.sock.sent) + run.sent <= disk.sock.sent
           && disk.sock.sent <= old(disk.sock.sent) + run.sent + lost.sent
           && disk.opId == lost.opId
         else
           disk.opId == run.opId && disk.sock.sent == old(disk.sock.sent) + run.sent
  {
    hide Step;
    answers, cut := [], false;
    ghost var p, s, id, at, out := disk.Params(), disk.sock.inbox, disk.opId, disk.sock.pos, disk.sock.sent;
    assert ops[..0] == [] && out + [] == out;
    var i := 0;
    while i < |ops|
      invariant i == |answers| <= |ops| && disk.Valid() && disk.Params() == p && !cut
      invariant var run := Run(p, id, ops[..i], s, at);
        && run == RunResult(disk.opId, run.sent, disk.sock.pos, answers)
        && disk.sock.sent == out + run.sent
    {
      ghost var run := Run(p, id, ops[..i], s, at);
      RunSnoc(p, id, ops[..i], ops[i], s, at);
      Reading.ConcatAssoc(out, run.sent, Step(p, run.opId, ops[i], s, run.pos).sent);
      assert ops[..i] + [ops[i]] == ops[..i + 1];
      var answer;
      answer, cut := Call(disk, ops[i]);
      if cut {
        return;
      }
      answers := answers + [answer];
      i := i + 1;
    }
    assert ops[..i] == ops;
  }

  /** With a conforming server at the other end, and as long as no send fails: the answers are
      those of a plain array, the server's disk ends as that array, exactly the server's bytes
      have been used up, and what was sent are frames whose ids rise, those of the calls that
      were not refused. */
  method CallsOnServer(disk: NfcDisk, ops: seq<Op>, ghost srv: Server, ghost end: nat, ghost last: Server)
    returns (answers: seq<Answer>, cut: bool, ghost fs: seq<AioFrame>)
    requires disk.Valid() && Sound(disk.Params(), srv)
    requires disk.opId + IdsTaken(disk.sectorSize, ops) <= U32_BOUND
    requires AllInBounds(disk.sectorSize, |srv.disk|, ops)
    requires disk.sock.pos <= end <= |disk.sock.inbox|
    requires Serves(disk.Params(), srv, disk.opId, ops, disk.sock.inbox[disk.sock.pos..end], last)
    modifies disk`opId, disk.sock`pos, disk.sock`sent
    ensures disk.Valid() && AllSendable(fs)
    ensures var plain := ArrayRun(srv.disk, disk.sectorSize, ops);
      !cut ==>
        && answers == plain.answers && last.disk == plain.disk && disk.sock.pos == end
        && disk.opId == old(disk.opId) + IdsTaken(disk.sectorSize, ops)
        && disk.sock.sent == old(disk.sock.sent) + EncodeAll(fs) && AllWellFormed(fs)
        && Rising(fs, old(disk.opId), disk.opId)
        && Exactly(fs, IdsSent(disk.sectorSize, old(disk.opId), ops))
  {
    hide Run, ArrayRun, Serves, Sound, AllInBounds, Rising, Exactly, EncodeAll, AllWellFormed;
    RunRefinesArray(disk.Params(), srv, disk.opId, ops, disk.sock.inbox, disk.sock.pos, end, last);
    fs := RunUsesIds(disk.Params(), srv, disk.opId, ops, disk.sock.inbox, disk.sock.pos, end, last);
    answers, cut := Calls(disk, ops);
    assert !cut ==> ops[..|answers|] == ops;
  }

  /** Any number of `close` calls, from the context exits and from the caller: together they
      send no more than one farewell, in its order, and the socket is closed from the first
      one on. */
  method CloseCalls(disk: NfcDisk, n: nat) returns (first: Result<()>)
    requires disk.sock.Valid() && !disk.closed && n >= 1
    modifies disk`closed, disk`opId, disk.sock`pos, disk.sock`sent, disk.sock.table
    ensures disk.sock.Valid() && disk.closed
    ensures disk.sock.table.open == old(disk.sock.table.open) - {disk.sock}
    ensures var eff := Client.Close(disk.handle, old(disk.opId), disk.sock.inbox, old(disk.sock.pos));
      && old(disk.sock.sent) <= disk.sock.sent <= old(disk.sock.sent) + eff.sent
      && (first.Ok? ==> disk.sock.sent == old(disk.sock.sent) + eff.sent)
  {
    hide Client.Close;
    first := disk.Close();
    ghost var sent := disk.sock.sent;
    for i := 1 to n
      invariant disk.sock.Valid() && disk.closed && disk.sock.sent == sent
      invariant disk.sock.table.open == old(disk.sock.table.open) - {disk.sock}
    {
      var again := disk.Close();
    }
  }

  /** Open a disk on a socket, make the calls, going on after those that raise, and close it.
      Unless a send fails, this is the connection that `Connections.ConnectionRefinesArray`
      speaks of, whatever the peer is; and the socket ends closed in any case. */
  method Connect(sock: Socket, lib: FastLz.Library, a: OpenArgs, ops: seq<Op>)
    returns (r: Result<seq<Answer>>)
    requires sock.Valid() && CheckArgs(a).None?
    modifies sock`pos, sock`sent, sock.table
    ensures sock.Valid() && sock.table.open == old(sock.table.open) - {sock}
    ensures var eff := Connection(a, lib, ops, sock.inbox, old(sock.pos));
      r != Err(OsError) ==>
        r == eff.result && sock.sent == old(sock.sent) + eff.sent && sock.pos == eff.pos
  {
    hide Open, Run, Step, Client.Close, CheckArgs;
    var opening := OpenDisk(sock, lib, a);
    if opening.Err? {
      return Err(opening.error);
    }
    var disk := opening.value;
    ghost var sent1 := sock.sent;
    var answers, cut := Calls(disk, ops);
    assert !cut ==> ops[..|answers|] == ops;
    ghost var sent2 := sock.sent;
    var closed := disk.Close();
    if cut || closed == Err(OsError) {
      return Err(OsError);
    }
    r := if closed.Ok? then Ok(answers) else Err(closed.error);
    ghost var o := Open(a, sock.inbox, old(sock.pos));
    ghost var run := Run(disk.Params(), o.opId, ops, sock.inbox, o.pos);
    ghost var c := Client.Close(disk.handle, run.opId, sock.inbox, run.pos);
    assert sent1 == old(sock.sent) + o.sent && sent2 == sent1 + run.sent;
    assert sock.sent == old(sock.sent) + o.sent + run.sent + c.sent;
    InThree(old(sock.sent), o.sent, run.sent, c.sent);
  }

  lemma {:induction false} InThree(before: Bytes, a: Bytes, b: Bytes, c: Bytes)
    ensures before + a + b + c == before + (a + b + c)
  {
  }
}
