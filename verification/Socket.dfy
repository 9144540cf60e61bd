/**
 The APR socket under a STOMP connection, as the environment of the library.

 A socket is uncooperative: a send may take only part of its data, a receive may
 deliver only part of what was asked for, and either may fail. Nothing else about
 it is known, so every contract above this module holds for all such sockets.
 A `steady` socket never fails a send and never holds back bytes that arrived. The
 ghost fields record what the socket did, so that contracts can say what callers made of it.
 */
module Socket {
  import opened CValues

  datatype AprStatus = Success | TimeUp | Eof | General | IoError

  /**
   What the library made the socket do: how often it polled, how many receives and sends
   failed, and what the latest of each reported.
   */
  datatype Log = Log(polls: nat, polled: bool, failedRecvs: nat, lastRecv: AprStatus,
                     failedSends: nat, lastSend: AprStatus) {
    function Polled(ready: bool): Log {
      this.(polls := polls + 1, polled := ready)
    }

    /** One receive; a successful one followed by others leaves no trace of its own. */
    function Received(rc: AprStatus): Log {
      this.(lastRecv := rc, failedRecvs := failedRecvs + if rc == Success then 0 else 1)
    }

    /** One send, likewise. */
    function Sent(rc: AprStatus): Log {
      this.(lastSend := rc, failedSends := failedSends + if rc == Success then 0 else 1)
    }
  }

  class Socket {
    /** Whether the peer and the network behave; unknown to the library. */
    const steady: bool
    /** Bytes that arrived and were not received yet. */
    var inbound: string
    /** Every byte handed to the library so far. */
    ghost var received: string
    /** Every byte the socket accepted so far. */
    ghost var sent: string
    /** What it was made to do so far. */
    ghost var log: Log

    constructor (steady: bool)
      ensures this.steady == steady && inbound == "" && received == "" && sent == ""
    {
      this.steady := steady;
      inbound, received, sent := "", "", "";
      log := Log(0, false, 0, Success, 0, Success);
    }

    /** `apr_socket_send`. On an error any part of the data may have been accepted. */
    method Send(data: string) returns (rc: AprStatus, n: nat)
      requires data != ""
      modifies this`sent, this`log
      ensures log == old(log).Sent(rc)
      ensures n <= |data| && sent == old(sent) + data[..n]
      ensures rc == Success ==> 1 <= n
      ensures steady ==> rc == Success
    {
      var failure: AprStatus := *;
      rc := if steady then Success else failure;
      n :| (if rc == Success then 1 else 0) <= n <= |data|;
      sent := sent + data[..n];
      log := log.Sent(rc);
    }

    /**
     `apr_socket_recv` for up to `n` bytes. Success delivers at least one byte: APR
     reports a receive of zero bytes as APR_EOF.
     */
    method Recv(n: nat) returns (rc: AprStatus, data: string)
      modifies this`inbound, this`received, this`log
      ensures log == old(log).Received(rc)
      ensures |data| <= n && data + inbound == old(inbound)
      ensures received == old(received) + data
      ensures rc == Success ==> data != ""
      ensures steady ==> |data| == Min(n, |old(inbound)|)
      ensures steady && data != "" ==> rc == Success
    {
      var most := Min(n, |inbound|);
      var some: nat :| some <= most;
      var k := if steady then most else some;
      var failure: AprStatus := *;
      rc := if k == 0 && failure == Success then Eof
            else if steady && k > 0 then Success
            else failure;
      data := inbound[..k];
      inbound := inbound[k..];
      received := received + data;
      log := log.Received(rc);
    }

    /**
     `stomp_io_can_read`: waits for input. More bytes may arrive during the wait; the
     answer is free except that a steady socket does not hide bytes that are there.
     */
    method CanRead() returns (ready: bool, ghost arrived: string)
      modifies this`inbound, this`log
      ensures log == old(log).Polled(ready)
      ensures inbound == old(inbound) + arrived
      ensures steady && inbound != "" ==> ready
    {
      var more: string := *;
      var answer: bool := *;
      inbound := inbound + more;
      arrived := more;
      ready := if steady && inbound != "" then true else answer;
      log := log.Polled(ready);
    }
  }
}
