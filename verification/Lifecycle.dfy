/** The `connect` and `open` contexts of openvixdisklib.py and `authenticate` of nfc_auth.py, as
    acquisitions and releases around the real socket-level methods. Every place where the
    code can raise is an outcome chosen by the environment (an `Attempt`, or what a peer
    sends); a release may itself raise, but has released. */
module Lifecycle {
  import opened Wire
  import opened Sockets
  import opened NfcDisks
  import opened Opening
  import opened OpenDisks
  import opened Authd
  import opened Runs
  import opened Sessions

  class VimSession {
    var loggedIn: bool

    constructor ()
      ensures !loggedIn
    {
      loggedIn := false;
    }

    /** `connect_vim` */
    method Login(works: bool) returns (ok: bool)
      modifies this
      ensures ok == works && loggedIn == (works || old(loggedIn))
    {
      if works {
        loggedIn := true;
      }
      ok := works;
    }

    /** `Disconnect` */
    method Logout(raises: bool) returns (r: Result<()>)
      modifies this
      ensures !loggedIn && r.Err? == raises
    {
      loggedIn := false;
      r := if raises then Err(OsError) else Ok(());
    }
  }

  /** One statement of the body of an `open` context: a call on its disk, a close, another
      exception, or an `open` context inside this one. `caught`: an exception of the statement
      does not leave the body. */
  datatype Statement =
    | Do(op: Op, caught: bool)
    | CloseNow(caught: bool)
    | Raise(caught: bool)
    | Nested(attempt: Attempt)

  /** One use of `open`: the arguments, what each peer will send, which of the foreign calls
      work, the body, and whether the caller catches what the whole context raises. */
  datatype Attempt = Attempt(
    ticketWorks: bool, connects: bool, wraps: bool, thumbprintOk: bool,
    dups: bool, tunes: bool, makesContext: bool, rewraps: bool,
    sessionId: string, service: string, nfcSsl: bool,
    clear: Bytes, tls: Bytes, nfc: Bytes,
    lib: FastLz.Library, args: OpenArgs, body: seq<Statement>, caught: bool)

  /** The NFC descriptor is duplicated, and then a call raises that no handler follows: one
      that sets the duplicate up, or for NBDSSL the making of the TLS context. */
  predicate Strands(a: Attempt) {
    a.dups && (!a.tunes || (a.nfcSsl && !a.makesContext))
  }

  /** How many descriptors an attempt may leave open: its own, or those of the attempts in its
      body, which is not entered when its own is stranded. */
  function Strays(a: Attempt): nat
    decreases a, 1, 0
  {
    if Strands(a) then 1 else StraysInBody(a, |a.body|)
  }

  /** The same for the first `n` statements of its body. */
  function StraysInBody(a: Attempt, n: nat): nat
    requires n <= |a.body|
    decreases a, 0, n
  {
    if n == 0 then 0 else StraysInBody(a, n - 1) + StraysOf(a.body[n - 1])
  }

  function StraysOf(statement: Statement): nat
    decreases statement, 0, 0
  {
    match statement
    case Nested(inner) => Strays(inner)
    case _ => 0
  }

  function StraysInAll(attempts: seq<Attempt>, n: nat): nat
    requires n <= |attempts|
  {
    if n == 0 then 0 else StraysInAll(attempts, n - 1) + Strays(attempts[n - 1])
  }

  /** A statement that raises for sure, if it is reached, and whose exception leaves the body. */
  ghost predicate MustRaise(statement: Statement)
    decreases statement, 0
  {
    match statement
    case Do(op, caught) => !caught && AlwaysRaises(op)
    case CloseNow(_) => false
    case Raise(caught) => !caught
    case Nested(inner) => !inner.caught && MustFail(inner)
  }

  /** An attempt that raises for sure: one of its foreign calls does not work, its arguments are
      refused, or a statement of its body must raise. */
  ghost predicate MustFail(a: Attempt)
    decreases a, 1
  {
    || !a.ticketWorks || !a.connects || !a.wraps || !a.thumbprintOk || CheckArgs(a.args).Some?
    || !a.dups || !a.tunes || (a.nfcSsl && !(a.makesContext && a.rewraps))
    || exists i :: 0 <= i < |a.body| && MustRaise(a.body[i])
  }

  /** The peer lets the client in and its body does nothing, but what it answers then does not
      let the disk be closed. */
  ghost predicate CannotClose(a: Attempt) {
    && CheckArgs(a.args).None? && a.body == [] && Open(a.args, a.nfc, 0).result.Ok?
    && var o := Open(a.args, a.nfc, 0);
       Client.Close(o.result.value.handle, o.opId, a.nfc, o.pos).result.Err?
  }

  /** Neither the attempt nor one in its body, at any depth, strands a descriptor. */
  ghost predicate Tidy(a: Attempt)
    decreases a
  {
    !Strands(a) && forall i :: 0 <= i < |a.body| && a.body[i].Nested? ==> Tidy(a.body[i].attempt)
  }

  lemma {:induction false} TidyHasNoStrays(a: Attempt)
    ensures Tidy(a) ==> Strays(a) == 0
    decreases a, 1, 0
  {
    if Tidy(a) {
      TidyBody(a, |a.body|);
    }
  }

  lemma {:induction false} TidyBody(a: Attempt, n: nat)
    requires Tidy(a) && n <= |a.body|
    ensures StraysInBody(a, n) == 0
    decreases a, 0, n
  {
    if n > 0 {
      TidyBody(a, n - 1);
      if a.body[n - 1].Nested? {
        TidyHasNoStrays(a.body[n - 1].attempt);
      }
    }
  }

  /** Sockets that have not carried a byte. */
  ghost predicate Unused(sockets: seq<Socket>)
    reads sockets
  {
    forall s :: s in sockets ==> s.pos == 0 && s.sent == []
  }

  ghost function Set<T>(s: seq<T>): set<T> {
    set x | x in s
  }

  /** `takeover_authd_socket` and, for NBDSSL, `wrap_nfcssl_socket`: exactly a stranded
      duplicate stays open although the call raises. */
  method TakeOver(nfc: Socket, a: Attempt) returns (ok: bool)
    modifies nfc.table
    ensures ok == (a.dups && !Strands(a) && (a.nfcSsl ==> a.rewraps))
    ensures nfc.table.open - {nfc} == old(nfc.table.open) - {nfc}
    ensures nfc.IsOpen() == (ok || Strands(a) || (old(nfc.IsOpen()) && !a.dups))
  {
    if !a.dups {
      return false;
    }
    nfc.Connect();
    if !a.tunes {
      return false;
    }
    if a.nfcSsl {
      if !a.makesContext {
        return false;
      }
      if !a.rewraps {
        nfc.Close();
        return false;
      }
    }
    ok := true;
  }

  /** The body of the `open` context: statements until one raises and is not caught. */
  method Body(disk: NfcDisk, a: Attempt) returns (r: Result<()>, ghost strays: seq<Socket>)
    requires disk.Valid() && (disk.closed ==> !disk.sock.IsOpen())
    modifies disk, disk.sock, disk.sock.table
    ensures disk.Valid() && (disk.closed ==> !disk.sock.IsOpen())
    ensures fresh(strays) && Unused(strays) && |strays| <= StraysInBody(a, |a.body|)
    ensures disk.sock.table.open - {disk.sock} == old(disk.sock.table.open) - {disk.sock} + Set(strays)
    ensures r.Ok? ==> forall i :: 0 <= i < |a.body| ==> !MustRaise(a.body[i])
    ensures a.body == [] ==>
      && r == Ok(()) && disk.closed == old(disk.closed) && disk.Params() == old(disk.Params())
      && disk.opId == old(disk.opId) && disk.sock.pos == old(disk.sock.pos)
    decreases a, 0
  {
    hide Strays, StraysInBody, StraysOf, Tidy, Set, MustRaise, MustFail, Step, Client.Close;
    strays := [];
    NoStrays<Socket>();
    ghost var before := disk.sock.table.open - {disk.sock};
    StraysBound(a, 0);
    for i := 0 to |a.body|
      invariant disk.Valid() && (disk.closed ==> !disk.sock.IsOpen())
      invariant fresh(strays) && Unused(strays)
      invariant |strays| <= StraysInBody(a, i) <= StraysInBody(a, |a.body|)
      invariant forall k :: 0 <= k < i ==> !MustRaise(a.body[k])
      invariant i == 0 ==>
        && disk.closed == old(disk.closed) && disk.Params() == old(disk.Params())
        && disk.opId == old(disk.opId) && disk.sock.pos == old(disk.sock.pos)
      invariant disk.sock.table.open - {disk.sock} == before + Set(strays)
    {
      StraysBound(a, i + 1);
      var raised;
      ghost var more;
      raised, more := Execute(disk, a.body[i]);
      MoreStrays(before, strays, more);
      strays := strays + more;
      if raised.Some? {
        return Err(raised.value), strays;
      }
    }
    r := Ok(());
  }

  /** One statement, and what it raises when that is not caught. */
  method Execute(disk: NfcDisk, statement: Statement)
    returns (raised: Option<Error>, ghost strays: seq<Socket>)
    requires disk.Valid() && (disk.closed ==> !disk.sock.IsOpen())
    modifies disk, disk.sock, disk.sock.table
    ensures disk.Valid() && (disk.closed ==> !disk.sock.IsOpen())
    ensures fresh(strays) && Unused(strays) && |strays| <= StraysOf(statement)
    ensures disk.sock.table.open - {disk.sock} == old(disk.sock.table.open) - {disk.sock} + Set(strays)
    ensures MustRaise(statement) ==> raised.Some?
    ensures match statement
      case Do(op, caught) =>
        var s := Step(old(disk.Params()), old(disk.opId), op, disk.sock.inbox, old(disk.sock.pos));
        if caught then raised == None
        else raised == Some(OsError)
             || raised == if s.answer.Raised? then Some(s.answer.error) else None
      case CloseNow(caught) =>
        var c := Client.Close(old(disk.handle), old(disk.opId), disk.sock.inbox, old(disk.sock.pos));
        if caught || old(disk.closed) then raised == None
        else raised == Some(OsError) || raised == if c.result.Err? then Some(c.result.error) else None
      case Raise(caught) => raised == if caught then None else Some(RuntimeError)
      case Nested(inner) => inner.caught ==> raised == None
    decreases statement, 0
  {
    hide Step, Client.Close, CutShort, Strays, Tidy, Set;
    strays := [];
    NoStrays<Socket>();
    match statement
    case Do(op, caught) =>
      AlwaysRaised(disk.Params(), disk.opId, op, disk.sock.inbox, disk.sock.pos);
      var answer, cut := Call(disk, op);
      raised := if answer.Raised? && !caught then Some(answer.error) else None;
    case CloseNow(caught) =>
      var closed := disk.Close();
      raised := if closed.Err? && !caught then Some(closed.error) else None;
    case Raise(caught) =>
      raised := if caught then None else Some(RuntimeError);
    case Nested(inner) =>
      ghost var open := disk.sock.table.open;
      var left;
      left, strays := OpenContext(disk.sock.table, inner);
      Beside(open, disk.sock, strays);
      raised := if left.Err? && !inner.caught then Some(left.error) else None;
  }

  lemma {:induction false} NoStrays<T>()
    ensures Set<T>([]) == {}
  {
  }

  lemma {:induction false} MoreStrays<T>(before: set<T>, a: seq<T>, b: seq<T>)
    ensures before + Set(a) + Set(b) == before + Set(a + b)
  {
    assert Set(a + b) == Set(a) + Set(b);
  }

  lemma {:induction false} Beside<T>(open: set<T>, x: T, strays: seq<T>)
    requires x !in strays
    ensures open + Set(strays) - {x} == open - {x} + Set(strays)
  {
    assert x !in Set(strays);
  }

  lemma {:induction false} StraysBound(a: Attempt, i: nat)
    requires i <= |a.body|
    ensures StraysInBody(a, 0) == 0
    ensures i > 0 ==> StraysInBody(a, i) == StraysInBody(a, i - 1) + StraysOf(a.body[i - 1])
    ensures StraysInBody(a, i) <= StraysInBody(a, |a.body|)
    decreases |a.body| - i
  {
    hide StraysOf;
    if i < |a.body| {
      StraysBound(a, i + 1);
    }
  }

  /** `VixDiskLibHandle.close`: the disk, and then the authd socket in any case. */
  method CloseHandle(disk: NfcDisk, authd: Socket) returns (r: Result<()>)
    requires disk.sock.Valid() && disk.sock != authd && (disk.closed ==> !disk.sock.IsOpen())
    requires authd.table == disk.sock.table
    modifies disk, disk.sock, disk.sock.table
    ensures authd.table.open == old(authd.table.open) - {disk.sock, authd}
    ensures if old(disk.closed) then r == Ok(())
            else
              || r == Err(OsError)
              || r == Client.Close(old(disk.handle), old(disk.opId), disk.sock.inbox,
                                   old(disk.sock.pos)).result
  {
    r := disk.Close();
    // An OSError of this close is swallowed.
    authd.Close();
  }

  /** The `open` context from entering to leaving: whatever raises, in it or in the contexts
      its body enters, on leaving exactly the sockets are open that were open before, and
      unused duplicates that were stranded; none if no attempt strands one. */
  method OpenContext(table: Descriptors, a: Attempt) returns (r: Result<()>, ghost strays: seq<Socket>)
    modifies table
    ensures table.open == old(table.open) + Set(strays)
    ensures fresh(strays) && Unused(strays) && |strays| <= Strays(a)
    ensures Tidy(a) ==> table.open == old(table.open)
    ensures MustFail(a) || CannotClose(a) ==> r.Err?
    decreases a, 3
  {
    hide Strays, StraysInBody, MustFail, CannotClose;
    var clear := new Socket(table, a.clear);
    var tls := new Socket(table, a.tls);
    var nfc := new Socket(table, a.nfc);
    r, strays := Inside(clear, tls, nfc, a);
    TidyHasNoStrays(a);
    NoStrays<Socket>();
    assert |strays| == 0 ==> table.open == old(table.open) + {} == old(table.open);
  }

  method Inside(clear: Socket, tls: Socket, nfc: Socket, a: Attempt)
    returns (r: Result<()>, ghost strays: seq<Socket>)
    requires clear.Valid() && tls.Valid() && nfc.Valid() && clear.table == tls.table == nfc.table
    requires clear != tls && tls != nfc && clear != nfc && nfc.pos == 0 && nfc.sent == []
    requires nfc.inbox == a.nfc
    requires !clear.IsOpen() && !tls.IsOpen() && !nfc.IsOpen()
    modifies clear, tls, nfc, nfc.table
    ensures nfc.table.open == old(nfc.table.open) + Set(strays)
    ensures forall k :: 0 <= k < |strays| ==> strays[k] == nfc || fresh(strays[k])
    ensures Unused(strays) && |strays| <= Strays(a)
    ensures MustFail(a) || CannotClose(a) ==> r.Err?
    decreases a, 2
  {
    hide Ran, Conversation, Open, ReadLine, ExpectCode, CheckArgs, StraysInBody, Strays, Set, MustRaise;
    hide ReadCommands, Client.Close, Tidy;
    strays := [];
    NoStrays<Socket>();
    ghost var before := nfc.table.open;
    if !a.ticketWorks || !a.connects {
      return Err(RuntimeError), [];
    }
    clear.Connect();
    var authd, wrapped := ConnectAuthd(clear, tls, a.wraps, a.thumbprintOk, a.sessionId, a.service,
                                       a.nfcSsl);
    Balanced(before, clear, tls);
    if authd.Err? {
      return authd, [];
    }
    assert nfc.table.open == before + {tls};
    if CheckArgs(a.args).None? {
      var taken := TakeOver(nfc, a);
      if !taken {
        Aside(before, tls, nfc, nfc.table.open);
        tls.Close();
        strays := StrandedBy(before, nfc, tls, nfc.table.open, a);
        return Err(OsError), strays;
      }
    }
    Released(before, nfc, tls, nfc.table.open, []);
    var disk := OpenDisk(nfc, a.lib, a.args);
    if disk.Err? {
      tls.Close();
      return Err(disk.error), [];
    }
    NotStranded(a);
    assert nfc.table.open - {nfc, tls} == before;
    r, strays := Use(disk.value, tls, a);
  }

  /** An opened disk, from the body to the close that the context does in any case. */
  method Use(disk: NfcDisk, authd: Socket, a: Attempt) returns (r: Result<()>, ghost strays: seq<Socket>)
    requires disk.Valid() && !disk.closed && disk.sock != authd && authd.table == disk.sock.table
    modifies disk, disk.sock, disk.sock.table
    ensures fresh(strays) && Unused(strays) && |strays| <= StraysInBody(a, |a.body|)
    ensures authd.table.open == old(authd.table.open) - {disk.sock, authd} + Set(strays)
    ensures r.Ok? ==> forall i :: 0 <= i < |a.body| ==> !MustRaise(a.body[i])
    ensures a.body == [] ==>
      var c := Client.Close(old(disk.handle), old(disk.opId), disk.sock.inbox, old(disk.sock.pos));
      r == Err(OsError) || if c.result.Err? then r == Err(c.result.error) else r.Ok?
    decreases a, 1
  {
    hide Strays, StraysInBody, Set, MustRaise, Client.Close;
    ghost var before := disk.sock.table.open;
    r, strays := Body(disk, a);
    Without(before, disk.sock, authd, disk.sock.table.open, strays);
    var closed := CloseHandle(disk, authd);
    if closed.Err? {
      r := closed;
    }
  }

  lemma {:induction false} Without<T>(before: set<T>, x: T, y: T, open: set<T>, strays: seq<T>)
    requires open - {x} == before - {x} + Set(strays) && y !in strays
    ensures open - {x, y} == before - {x, y} + Set(strays)
  {
    assert y !in Set(strays);
    assert open - {x, y} == open - {x} - {y};
  }

  lemma {:induction false} Balanced<T>(before: set<T>, x: T, y: T)
    requires x !in before && y !in before && x != y
    ensures before + {x} - {x} - {} + {} == before == before + {x} - {x} - {y} + {}
    ensures before + {x} - {x} - {y} + {y} == before + {y}
  {
  }

  lemma {:induction false} Released<T>(before: set<T>, x: T, y: T, open: set<T>, strays: seq<T>)
    requires x !in before && y !in before && y !in strays
    requires open - {x} == before + {y} + Set(strays)
    ensures open - {x, y} == before + Set(strays)
    ensures x !in open ==> open - {y} == before + Set(strays)
    ensures open - {x} - {y} == before + Set(strays)
  {
    assert y !in Set(strays);
    assert open - {x} - {y} == before + Set(strays);
    assert open - {x, y} == open - {x} - {y};
    assert x !in open ==> open - {x} == open;
  }

  lemma {:induction false} Aside<T>(before: set<T>, y: T, x: T, open: set<T>)
    requires x !in before && y !in before && x != y && open - {x} == before + {y} - {x}
    ensures open - {y} - {x} == before && y !in open - {y} && (x in open - {y} <==> x in open)
  {
    assert open - {y} - {x} == open - {x} - {y} == before;
  }

  lemma {:induction false} StrandedBy(before: set<Socket>, x: Socket, y: Socket, open: set<Socket>,
                                      a: Attempt)
    returns (strays: seq<Socket>)
    requires x !in before && y !in before && x != y && y !in open && open - {x} == before
    requires (x in open) == Strands(a)
    ensures strays == (if Strands(a) then [x] else []) && open == before + Set(strays)
    ensures |strays| <= Strays(a)
  {
    strays := if Strands(a) then [x] else [];
    assert Set([x]) == {x};
  }

  lemma {:induction false} NotStranded(a: Attempt)
    ensures StraysInBody(a, |a.body|) <= Strays(a) || Strands(a)
  {
  }

  /** The `connect` context around any number of `open` contexts, one after the other and one
      inside the other, until one raises and is not caught: on leaving, the VIM session is
      logged out, and exactly the sockets are open that were open before and what the attempts
      stranded. */
  method ConnectContext(table: Descriptors, vim: VimSession, loginWorks: bool, logoutRaises: bool,
                        attempts: seq<Attempt>)
    returns (r: Result<()>, ghost strays: seq<Socket>)
    requires !vim.loggedIn
    modifies vim, table
    ensures !vim.loggedIn
    ensures table.open == old(table.open) + Set(strays)
    ensures fresh(strays) && Unused(strays) && |strays| <= StraysInAll(attempts, |attempts|)
    ensures (forall i :: 0 <= i < |attempts| ==> Tidy(attempts[i])) ==>
      table.open == old(table.open)
    ensures !loginWorks ==> r == Err(RuntimeError)
    ensures loginWorks && logoutRaises ==> r.Err?
    ensures (exists i :: 0 <= i < |attempts| && !attempts[i].caught && MustFail(attempts[i])) ==> r.Err?
  {
    hide Strays, Tidy, Set, StraysInAll, MustFail;
    strays := [];
    NoStrays<Socket>();
    var ok := vim.Login(loginWorks);
    AllGrow(attempts, 0);
    if !ok {
      return Err(RuntimeError), [];
    }
    r := Ok(());
    var i := 0;
    while i < |attempts| && r.Ok?
      invariant i <= |attempts| && table.open == old(table.open) + Set(strays) && vim.loggedIn
      invariant fresh(strays) && Unused(strays) && |strays| <= StraysInAll(attempts, i)
      invariant StraysInAll(attempts, i) <= StraysInAll(attempts, |attempts|)
      invariant r.Ok? ==> forall k :: 0 <= k < i && !attempts[k].caught ==> !MustFail(attempts[k])
    {
      AllStep(attempts, i);
      var left;
      ghost var more;
      left, more := OpenContext(table, attempts[i]);
      MoreStrays(old(table.open), strays, more);
      strays := strays + more;
      r := if attempts[i].caught then Ok(()) else left;
      i := i + 1;
      AllGrow(attempts, i);
    }
    AllTidy(attempts, |attempts|);
    var out := vim.Logout(logoutRaises);
    if out.Err? {
      r := out;
    }
  }

  lemma {:induction false} AllStep(attempts: seq<Attempt>, i: nat)
    requires i < |attempts|
    ensures StraysInAll(attempts, i + 1) == StraysInAll(attempts, i) + Strays(attempts[i])
  {
  }

  lemma {:induction false} AllTidy(attempts: seq<Attempt>, n: nat)
    requires n <= |attempts|
    ensures (forall i :: 0 <= i < |attempts| ==> Tidy(attempts[i])) ==> StraysInAll(attempts, n) == 0
  {
    hide Tidy, Strays;
    if n > 0 {
      AllTidy(attempts, n - 1);
      TidyHasNoStrays(attempts[n - 1]);
    }
  }

  lemma {:induction false} AllGrow(attempts: seq<Attempt>, i: nat)
    requires i <= |attempts|
    ensures StraysInAll(attempts, i) <= StraysInAll(attempts, |attempts|)
    decreases |attempts| - i
  {
    if i < |attempts| {
      AllGrow(attempts, i + 1);
    }
  }

  /** `authenticate`: on any failure after the login, the session is logged out again and no
      socket is left; on success it holds exactly the VIM session and the authd TLS socket. */
  method Authenticate(vim: VimSession, clear: Socket, tls: Socket, loginWorks: bool,
                      logoutRaises: bool, a: Attempt)
    returns (r: Result<()>)
    requires clear.Valid() && tls.Valid() && clear != tls && clear.table == tls.table
    requires !vim.loggedIn && !clear.IsOpen() && !tls.IsOpen()
    modifies vim, clear, tls, tls.table
    ensures vim.loggedIn == r.Ok?
    ensures tls.table.open == old(tls.table.open) + if r.Ok? then {tls} else {}
  {
    var ok := vim.Login(loginWorks);
    if !ok {
      return Err(RuntimeError);
    }
    if a.ticketWorks && a.connects {
      clear.Connect();
      var authd, wrapped := ConnectAuthd(clear, tls, a.wraps, a.thumbprintOk, a.sessionId,
                                         a.service, a.nfcSsl);
      if authd.Ok? {
        return Ok(());
      }
      r := authd;
    } else {
      r := Err(RuntimeError);
    }
    var out := vim.Logout(logoutRaises);
    if out.Err? {
      r := Err(out.error);
    }
  }

  /** `NfcAuthSession.close` */
  method CloseSession(vim: VimSession, authd: Socket, closeRaises: bool, logoutRaises: bool)
    returns (r: Result<()>)
    modifies vim, authd.table
    ensures !vim.loggedIn && authd.table.open == old(authd.table.open) - {authd}
    ensures r.Err? <==> closeRaises || logoutRaises
  {
    authd.Close();
    r := vim.Logout(logoutRaises);
    if r.Ok? && closeRaises {
      r := Err(OsError);
    }
  }
}
