/**
 `send_tcp_message` and `recv_tcp_message` of `src/network.c`, and the receive loop of
 `download_file` in `src/cli.c`, over sockets that accept and deliver any part of what is asked for.
 */
module Network {
  import opened Bytes

  /** What the kernel does with the next call: nothing yet, a failure, or up to so many bytes. */
  datatype Outcome = Again | Failure | Amount(n: nat)

  function Least(a: nat, b: nat): nat {
    if a < b then a else b
  }

  class Socket {
    var outgoing: bytes
    const incoming: bytes
    var taken: nat
    var outcomes: seq<Outcome>

    constructor (incoming: bytes, outcomes: seq<Outcome>)
      ensures this.incoming == incoming && this.outcomes == outcomes && outgoing == [] && taken == 0
    {
      this.incoming, this.outcomes, outgoing, taken := incoming, outcomes, [], 0;
    }

    ghost predicate Valid()
      reads this
    {
      taken <= |incoming|
    }

    /** What has not been received yet. */
    ghost function Rest(): bytes
      reads this
      requires Valid()
    {
      incoming[taken..]
    }

    /** `send`: the number of bytes accepted, or -1. */
    method Send(data: bytes) returns (n: int)
      modifies this`outgoing, this`outcomes
      ensures -1 <= n <= |data| && outgoing == old(outgoing) + data[..if n < 0 then 0 else n]
      ensures outcomes == if old(outcomes) == [] then [] else old(outcomes)[1..]
      ensures n >= 0 <==> old(outcomes) == [] || old(outcomes)[0].Amount?
      ensures n == 0 && data != [] ==> old(outcomes) != [] && old(outcomes)[0] == Amount(0)
    {
      if outcomes == [] {
        n := |data|;
      } else {
        n := if outcomes[0].Amount? then Least(outcomes[0].n, |data|) else -1;
        outcomes := outcomes[1..];
      }
      outgoing := outgoing + data[..if n < 0 then 0 else n];
    }

    /** `recv`: at least one byte while any is left, 0 after the last one, -1 for a failure, -2 for none yet. */
    method Recv(len: nat) returns (n: int, data: bytes)
      requires Valid() && len > 0
      modifies this`taken, this`outcomes
      ensures Valid() && n <= len && |data| == if n < 0 then 0 else n
      ensures taken == old(taken) + |data| && data == incoming[old(taken)..taken]
      ensures outcomes == if old(outcomes) == [] then [] else old(outcomes)[1..]
      ensures n == -1 <==> old(outcomes) != [] && old(outcomes)[0].Failure?
      ensures n == -2 <==> old(outcomes) != [] && old(outcomes)[0].Again?
      ensures n >= -2 && (n == 0 ==> taken == |incoming|)
    {
      var most := Least(len, |incoming| - taken);
      if outcomes == [] {
        n := most;
      } else {
        n := match outcomes[0]
          case Again => -2
          case Failure => -1
          case Amount(k) => Least(if k == 0 then 1 else k, most);
        outcomes := outcomes[1..];
      }
      var got: nat := if n < 0 then 0 else n;
      data := incoming[taken..taken + got];
      taken := taken + got;
    }
  }

  ghost predicate Accepting(outcomes: seq<Outcome>) {
    forall o <- outcomes :: o.Amount? && o.n > 0
  }

  ghost predicate NeverFails(outcomes: seq<Outcome>) {
    forall o <- outcomes :: !o.Failure?
  }

  /**
   `send_tcp_message`: a prefix of the message is on the wire; all of it exactly when the result is
   its length, which is so whenever the socket keeps accepting bytes.
   */
  method SendTcpMessage(fd: Socket, msg: bytes) returns (total: int)
    modifies fd`outgoing, fd`outcomes
    ensures exists k :: 0 <= k <= |msg| && fd.outgoing == old(fd.outgoing) + msg[..k] && (total == k || total == -1)
    ensures total == |msg| ==> fd.outgoing == old(fd.outgoing) + msg
    ensures Accepting(old(fd.outcomes)) ==> total == |msg| && Accepting(fd.outcomes)
  {
    total := 0;
    while total < |msg|
      invariant 0 <= total <= |msg| && fd.outgoing == old(fd.outgoing) + msg[..total]
      invariant Accepting(old(fd.outcomes)) ==> Accepting(fd.outcomes)
    {
      var nbytes := fd.Send(msg[total..]);
      if nbytes < 0 {
        return -1;
      }
      if nbytes == 0 {
        break;
      }
      assert msg[..total] + msg[total..][..nbytes] == msg[..total + nbytes];
      total := total + nbytes;
    }
  }

  /**
   `recv_tcp_message`: however the stream is cut into pieces, the next `len` bytes of it, or all that
   is left if the peer closed before.
   */
  method RecvTcpMessage(fd: Socket, len: nat) returns (total: int, data: bytes)
    requires fd.Valid()
    modifies fd`taken, fd`outcomes
    ensures fd.Valid() && fd.taken == old(fd.taken) + |data| && data == fd.incoming[old(fd.taken)..fd.taken]
    ensures total == |data| || total == -1
    ensures total >= 0 ==> |data| == Least(len, |fd.incoming| - old(fd.taken))
    ensures NeverFails(old(fd.outcomes)) ==> total >= 0 && NeverFails(fd.outcomes)
  {
    total, data := 0, [];
    while total < len
      invariant fd.Valid() && total == |data| <= len
      invariant fd.taken == old(fd.taken) + |data| && data == fd.incoming[old(fd.taken)..fd.taken]
      invariant NeverFails(old(fd.outcomes)) ==> NeverFails(fd.outcomes)
      decreases |fd.incoming| - fd.taken + len - total, |fd.outcomes|
    {
      var nbytes, piece := fd.Recv(len - total);
      if nbytes < 0 {
        if nbytes == -2 {
          continue;
        }
        return -1, data;
      }
      if nbytes == 0 {
        break;
      }
      total, data := total + nbytes, data + piece;
    }
  }
}
