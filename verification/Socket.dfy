/** A connected stream socket. `inbox` is every byte the peer will ever deliver before it
    closes its side; `sent` is every byte this side got onto the wire. How `recv_into` cuts
    the stream and how far a failing `sendall` gets are left to the environment. */
module Sockets {
  import opened Wire

  /** The process's table of open descriptors: a socket is open while it is listed here. */
  class Descriptors {
    var open: set<Socket>

    constructor ()
      ensures open == {}
    {
      open := {};
    }
  }

  class Socket {
    const inbox: Bytes
    const table: Descriptors
    var pos: nat
    var sent: Bytes

    ghost predicate Valid()
      reads this
    {
      pos <= |inbox|
    }

    predicate IsOpen()
      reads table
    {
      this in table.open
    }

    /** A descriptor not yet acquired, with what the peer is going to send on it. */
    constructor (table: Descriptors, inbox: Bytes)
      ensures Valid() && pos == 0 && sent == [] && this.inbox == inbox && this.table == table
    {
      this.table, this.inbox, pos, sent := table, inbox, 0, [];
    }

    method Connect()
      modifies table
      ensures table.open == old(table.open) + {this}
    {
      table.open := table.open + {this};
    }

    method Close()
      modifies table
      ensures table.open == old(table.open) - {this}
    {
      table.open := table.open - {this};
    }

    /** `sendall`: everything, or an OSError after some prefix. */
    method SendAll(bs: Bytes) returns (ok: bool)
      modifies this`sent
      ensures ok ==> IsOpen() && sent == old(sent) + bs
      ensures !ok ==> old(sent) <= sent <= old(sent) + bs
      ensures !IsOpen() ==> !ok && sent == old(sent)
    {
      if !IsOpen() {
        return false;
      }
      var accepted: nat :| accepted <= |bs|;
      sent := sent + bs[..accepted];
      ok := accepted == |bs|;
    }

    /** `recv_into(view[lo:hi])`: any number of bytes from 1 up to what fits and what is
        left; 0 only for an empty view or at the end of the stream. */
    method RecvInto(buf: array<byte>, lo: nat, hi: nat) returns (got: nat)
      requires Valid() && lo <= hi <= buf.Length
      modifies this`pos, buf
      ensures Valid() && got <= hi - lo && pos == old(pos) + got
      ensures got == 0 <==> lo == hi || old(pos) == |inbox|
      ensures buf[..] == Splice(old(buf[..]), lo, inbox[old(pos)..pos])
    {
      var most := Min(hi - lo, |inbox| - pos);
      got :| (if most == 0 then 0 else 1) <= got <= most;
      forall i | 0 <= i < got {
        buf[lo + i] := inbox[pos + i];
      }
      pos := pos + got;
    }

    /** `_recvn_into`: fills `buf[lo:hi]` exactly, or takes what is left of the stream and
        raises. */
    method RecvnInto(buf: array<byte>, lo: nat, hi: nat) returns (ok: bool)
      requires Valid() && lo <= hi <= buf.Length
      modifies this`pos, buf
      ensures Valid() && ok == (hi - lo <= |inbox| - old(pos))
      ensures pos == Min(old(pos) + hi - lo, |inbox|)
      ensures buf[..] == Splice(old(buf[..]), lo, inbox[old(pos)..pos])
    {
      SpliceNothing(buf[..], lo);
      hide Splice;
      ghost var before := buf[..];
      var filled := 0;
      while filled < hi - lo
        invariant Valid() && filled <= hi - lo && pos == old(pos) + filled
        invariant buf[..] == Splice(before, lo, inbox[old(pos)..pos])
      {
        ghost var at := pos;
        var got := RecvInto(buf, lo + filled, hi);
        if got == 0 {
          return false;
        }
        SpliceTwice(before, lo, inbox[old(pos)..at], inbox[at..pos]);
        assert inbox[old(pos)..pos] == inbox[old(pos)..at] + inbox[at..pos];
        filled := filled + got;
      }
      ok := true;
    }

    /** `_recvn`: the next `n` bytes of the stream, or ProtocolError when fewer are left. */
    method Recvn(n: nat) returns (r: Result<Bytes>)
      requires Valid()
      modifies this`pos
      ensures Valid() && pos == Min(old(pos) + n, |inbox|)
      ensures r == if old(pos) + n <= |inbox| then Ok(inbox[old(pos)..old(pos) + n])
                   else Err(ProtocolError)
    {
      var buf := new byte[n](_ => 0);
      var ok := RecvnInto(buf, 0, n);
      assert ok ==> buf[..] == inbox[old(pos)..pos];
      r := if ok then Ok(buf[..]) else Err(ProtocolError);
    }
  }
}
