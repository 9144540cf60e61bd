/**
 src/stomp_messenger.c: the API calls as methods on a mutable messenger. Each is proved
 to be one step of `Protocol.Next`, for every behaviour of the socket.
 */
module Messenger {
  import opened CValues
  import opened Frames
  import opened Wire
  import opened Reading
  import opened Socket
  import opened StompIo
  import opened ExProperties
  import opened Message
  import opened Protocol

  /** `stomp_messenger_t`, with its connection already established. */
  class Messenger {
    var connection: Socket
    const exchange: ExchangeProperties
    var status: StatusCode
    const path: string
    const stripRoot: bool

    /** `stomp_messenger_init` and the path of `stomp_set_endpoint`, which must not be empty. */
    constructor (connection: Socket, path: string)
      requires path != ""
      ensures this.connection == connection && this.path == path && stripRoot && fresh(exchange)
      ensures exchange.hash == map[] && status == Succeeded
    {
      this.connection, this.path := connection, path;
      exchange := new ExchangeProperties();
      status, stripRoot := Succeeded, true;
    }

    ghost function Abs(): Session
      reads this, connection, exchange
    {
      Session(path, stripRoot, exchange.hash, status,
              connection.steady, connection.inbound, connection.received, connection.sent)
    }

    /**
     What became of the wait is what one poll and, if it was positive, receives up to the
     first that failed reported. The code ignores the result of a receive in one place
     only, behind the NUL of an uncounted body.
     */
    ghost predicate Observed(inbound: string, before: Log, wait: Wait)
      reads this, connection
    {
      var after := connection.log;
      match wait
      case NoWait => after == before
      case Idle(_) => after == before.Polled(false)
      case Reply(_, _, f) =>
        after == before.Polled(true).Received(after.lastRecv) && (Counted(f) ==> after.lastRecv == Success)
      case Broken(arrived, d, rc) =>
        && rc != Success
        && Reports(rc, before.Polled(true), after, BadBytes(inbound + arrived, d, connection.inbound))
    }

    /** Sends up to the first that failed decide whether the frame is complete, and so whether to wait. */
    ghost predicate Submitted(inbound: string, before: Log, e: Event)
      reads this, connection
    {
      && (e.complete <==> connection.log.lastSend == Success)
      && Observed(inbound, before.Sent(connection.log.lastSend), e.wait)
    }

    /** `stomp_io_can_read`, then `stomp_read`. */
    method AwaitFrame() returns (ready: bool, rc: AprStatus, frame: Option<Frame>, ghost wait: Wait)
      modifies connection`inbound, connection`received, connection`log
      ensures Receives(old(Abs()), wait, Abs()) && !wait.NoWait?
      ensures Observed(old(connection.inbound), old(connection.log), wait)
      ensures wait.Idle? <==> !ready
      ensures wait.Reply? <==> frame.Some?
      ensures frame.Some? ==>
                && ready && wait.frame == frame.value && frame.value.headers.Some?
                && frame.value.body.Some? && frame.value.bodyLength == |frame.value.body.value|
      ensures wait.Broken? ==> wait.rc == rc
    {
      ghost var arrived;
      ready, arrived := connection.CanRead();
      if !ready {
        return false, TimeUp, None, Idle(arrived);
      }
      ghost var inbound, d := connection.inbound, Full("");
      rc, frame, d := Read(connection);
      if frame.Some? {
        ReadShape(inbound, d);
        wait := Reply(arrived, d, frame.value);
      } else {
        wait := Broken(arrived, d, rc);
      }
    }

    /** Waiting for the reply to a frame: `stomp_process_receipt`, and the end of `stomp_connect`. */
    method ProcessReply(expected: string) returns (code: StatusCode, ghost wait: Wait)
      modifies this`status
      modifies connection`inbound, connection`received, connection`log
      ensures Receives(old(Abs()), wait, Abs()) && !wait.NoWait?
      ensures Observed(old(connection.inbound), old(connection.log), wait)
      ensures code == if wait.Reply? && expected <= wait.frame.command then Succeeded else Failed
      ensures status == if code == Succeeded then old(status) else Failed
    {
      var ready, rc, reply;
      ready, rc, reply, wait := AwaitFrame();
      if !ready || reply == None || !(expected <= reply.value.command) {
        status := Failed;
        return Failed, wait;
      }
      code := Succeeded;
    }

    /** Writing a call's frame, which touches nothing but the wire. */
    method Transmit(frame: Frame, ghost call: Call) returns (rc: AprStatus, ghost e: Event)
      requires Addressable(frame)
      modifies connection`sent, connection`log
      ensures Writes(old(Abs()), e, Abs()) && e.call == call && e.frame == Some(frame)
      ensures e.complete == (rc == Success) && e.wait.NoWait? && connection.log == old(connection.log).Sent(rc)
      ensures e.code == if rc == Success then Succeeded else Failed
    {
      ghost var s := Abs();
      var entries;
      rc, entries := Write(connection, frame);
      ghost var code := if rc == Success then Succeeded else Failed;
      e := Event(call, Some(frame), entries, connection.sent[|s.sent|..], rc == Success, NoWait, code);
      WroteIsWrites(s, e, Abs(), frame, rc);
    }

    /** After a write: failure, or success at once, or waiting for the reply. */
    method Conclude(written: bool, awaits: bool, expected: string) returns (code: StatusCode, ghost wait: Wait)
      modifies this`status
      modifies connection`inbound, connection`received, connection`log
      ensures Receives(old(Abs()), wait, Abs()) && (!wait.NoWait? <==> awaits && written)
      ensures Observed(old(connection.inbound), old(connection.log), wait)
      ensures code == if !written then Failed
                      else if !awaits || (wait.Reply? && expected <= wait.frame.command) then Succeeded
                      else Failed
      ensures status == if code == Succeeded then old(status) else Failed
    {
      wait := NoWait;
      if !written {
        status, code := Failed, Failed;
      } else if awaits {
        code, wait := ProcessReply(expected);
      } else {
        code := Succeeded;
      }
    }

    /** What every writing call does with its frame. */
    method Submit(frame: Frame, awaits: bool, expected: string, ghost call: Call)
      returns (code: StatusCode, ghost e: Event)
      requires path != "" && FrameFor(path, stripRoot, exchange.hash, call) == Some(frame) && Addressable(frame)
      requires awaits == Awaits(call) && expected == Expected(call)
      modifies this`status, connection
      ensures e.call == call && Next(old(Abs()), e, Abs())
      ensures code == e.code && Submitted(old(connection.inbound), old(connection.log), e)
      ensures status == if code == Succeeded then old(status) else Failed
      ensures !e.wait.NoWait? && !connection.log.polled ==>
                code == Failed && connection.received == old(connection.received)
    {
      ghost var s := Abs();
      var rc;
      rc, e := Transmit(frame, call);
      ghost var m := Abs();
      ghost var wait;
      code, wait := Conclude(rc == Success, awaits, expected);
      e := e.(wait := wait, code := code);
      WriteIsNext(s, e, m, Abs());
    }

    /** `stomp_write_receipt`. */
    method WriteReceipt(headers: Table, receipt: Receipt) returns (t: Table)
      ensures t == WithReceipt(headers, receipt)
    {
      t := headers;
      if receipt > 0 {
        t := t["receipt" := Itoa(AsInt(receipt))];
      }
    }

    /** `stomp_write_transaction_id`. */
    method WriteTransactionId(headers: Table, id: Int64) returns (t: Table)
      ensures t == WithTransaction(headers, id)
    {
      t := headers;
      if id > -1 {
        t := t["transaction" := Itoa(AsInt(id))];
      }
    }

    /** `stomp_write_message_id`. */
    method WriteMessageId(headers: Table, id: Int64) returns (t: Table)
      ensures t == WithMessageId(headers, id)
    {
      t := headers;
      if id > -1 {
        t := t["id" := Itoa(AsInt(id))];
      }
    }

    /** `stomp_connect`, from the CONNECT frame on. */
    method Connect(header: Option<Credentials>) returns (code: StatusCode, ghost e: Event)
      requires path != ""
      modifies this`status, connection
      ensures e.call == Call.Connect(header) && Next(old(Abs()), e, Abs())
      ensures code == e.code && Submitted(old(connection.inbound), old(connection.log), e)
    {
      var headers: Table := map[];
      if header.Some? {
        headers := Put(headers, "login", header.value.username);
        headers := Put(headers, "passcode", header.value.password);
      }
      headers := headers["accept-version" := "1.2"];
      var frame := Frame("CONNECT", Some(headers), None, SIZE_MAX);
      code, e := Submit(frame, true, "CONNECTED", Call.Connect(header));
    }

    /** `stomp_disconnect`. */
    method Disconnect(header: Option<Receipt>) returns (code: StatusCode, ghost e: Event)
      requires path != ""
      modifies this`status, connection
      ensures e.call == Call.Disconnect(header) && Next(old(Abs()), e, Abs())
      ensures code == e.code && Submitted(old(connection.inbound), old(connection.log), e)
    {
      var headers: Table := map[];
      if header.Some? {
        headers := WriteReceipt(headers, header.value);
      }
      var frame := Frame("DISCONNECT", Some(headers), None, SIZE_MAX);
      code, e := Submit(frame, header.Some? && header.value > 0, "RECEIPT", Call.Disconnect(header));
    }

    /** `stomp_subscribe`. */
    method Subscribe(header: Option<Subscription>) returns (code: StatusCode, ghost e: Event)
      requires path != ""
      modifies this`status, connection
      ensures e.call == Call.Subscribe(header) && Next(old(Abs()), e, Abs())
      ensures code == e.code
      ensures if header.Some? then Submitted(old(connection.inbound), old(connection.log), e)
              else connection.log == old(connection.log)
    {
      var headers: Table := map[];
      if stripRoot {
        headers := headers["destination" := path[1..]];
      } else {
        headers := headers["destination" := path];
      }
      if header == None {
        status := Failed;
        e := Event(Call.Subscribe(None), None, [], "", true, NoWait, Failed);
        return Failed, e;
      }
      headers := headers["id" := Itoa(AsInt(header.value.id))];
      headers := WriteReceipt(headers, header.value.receipt);
      var frame := Frame("SUBSCRIBE", Some(headers), None, SIZE_MAX);
      code, e := Submit(frame, header.value.receipt > 0, "RECEIPT", Call.Subscribe(header));
    }

    /** `stomp_unsubscribe`; its header must not be NULL. */
    method Unsubscribe(header: Subscription) returns (code: StatusCode, ghost e: Event)
      requires path != ""
      modifies this`status, connection
      ensures e.call == Call.Unsubscribe(header) && Next(old(Abs()), e, Abs())
      ensures code == e.code && Submitted(old(connection.inbound), old(connection.log), e)
    {
      var headers: Table := map["destination" := path];
      headers := headers["id" := Itoa(AsInt(header.id))];
      headers := WriteReceipt(headers, header.receipt);
      var frame := Frame("UNSUBSCRIBE", Some(headers), None, SIZE_MAX);
      code, e := Submit(frame, header.receipt > 0, "RECEIPT", Call.Unsubscribe(header));
    }

    /** The headers that `stomp_ack` and `stomp_nack` share. */
    method WriteAck(header: Option<AckHeader>) returns (headers: Table)
      ensures headers == AckTable(header)
    {
      headers := map[];
      if header.Some? {
        headers := WriteMessageId(headers, header.value.messageId);
        headers := WriteTransactionId(headers, header.value.transactionId);
        headers := WriteReceipt(headers, header.value.receipt);
      }
    }

    /** `stomp_ack`. */
    method Ack(header: Option<AckHeader>) returns (code: StatusCode, ghost e: Event)
      requires path != ""
      modifies this`status, connection
      ensures e.call == Call.Ack(header) && Next(old(Abs()), e, Abs())
      ensures code == e.code && Submitted(old(connection.inbound), old(connection.log), e)
    {
      var headers := WriteAck(header);
      var frame := Frame("ACK", Some(headers), None, SIZE_MAX);
      code, e := Submit(frame, header.Some? && header.value.receipt > 0, "RECEIPT", Call.Ack(header));
    }

    /** `stomp_nack`. */
    method Nack(header: Option<AckHeader>) returns (code: StatusCode, ghost e: Event)
      requires path != ""
      modifies this`status, connection
      ensures e.call == Call.Nack(header) && Next(old(Abs()), e, Abs())
      ensures code == e.code && Submitted(old(connection.inbound), old(connection.log), e)
    {
      var headers := WriteAck(header);
      var frame := Frame("NACK", Some(headers), None, SIZE_MAX);
      code, e := Submit(frame, header.Some? && header.value.receipt > 0, "RECEIPT", Call.Nack(header));
    }

    /** `stomp_transaction`, for `call` being one of the three below. */
    method Transaction(header: Option<TransactionHeader>, command: string, ghost call: Call)
      returns (code: StatusCode, ghost e: Event)
      requires path != ""
      requires call == Call.Begin(header) || call == Call.Commit(header) || call == Call.Abort(header)
      requires command == CommandOf(call)
      modifies this`status, connection
      ensures e.call == call && Next(old(Abs()), e, Abs())
      ensures code == e.code && Submitted(old(connection.inbound), old(connection.log), e)
    {
      var headers: Table := map[];
      if header.Some? {
        headers := WriteTransactionId(headers, header.value.transactionId);
        headers := WriteReceipt(headers, header.value.receipt);
      }
      var frame := Frame(command, Some(headers), None, SIZE_MAX);
      code, e := Submit(frame, header.Some? && header.value.receipt > 0, "RECEIPT", call);
    }

    /** `stomp_begin`. */
    method Begin(header: Option<TransactionHeader>) returns (code: StatusCode, ghost e: Event)
      requires path != ""
      modifies this`status, connection
      ensures e.call == Call.Begin(header) && Next(old(Abs()), e, Abs())
      ensures code == e.code && Submitted(old(connection.inbound), old(connection.log), e)
    {
      code, e := Transaction(header, "BEGIN", Call.Begin(header));
    }

    /** `stomp_commit`. */
    method Commit(header: Option<TransactionHeader>) returns (code: StatusCode, ghost e: Event)
      requires path != ""
      modifies this`status, connection
      ensures e.call == Call.Commit(header) && Next(old(Abs()), e, Abs())
      ensures code == e.code && Submitted(old(connection.inbound), old(connection.log), e)
    {
      code, e := Transaction(header, "COMMIT", Call.Commit(header));
    }

    /** `stomp_abort`. */
    method Abort(header: Option<TransactionHeader>) returns (code: StatusCode, ghost e: Event)
      requires path != ""
      modifies this`status, connection
      ensures e.call == Call.Abort(header) && Next(old(Abs()), e, Abs())
      ensures code == e.code && Submitted(old(connection.inbound), old(connection.log), e)
    {
      code, e := Transaction(header, "ABORT", Call.Abort(header));
    }

    method SubmitMessage(headers: Table, header: Option<TransactionHeader>, message: Message)
      returns (code: StatusCode, ghost e: Event)
      requires path != "" && AddressableBody(message.Bytes(), message.size)
      requires headers == TransactionTable(exchange.hash["destination" := Destination(path, stripRoot)], header)
      modifies this`status, connection
      ensures e.call == Call.Send(header, message.Bytes(), message.size)
      ensures Next(old(Abs()), e, Abs())
      ensures code == e.code && Submitted(old(connection.inbound), old(connection.log), e)
    {
      var frame := Frame("SEND", Some(headers), message.Bytes(), message.size);
      code, e := Submit(frame, header.Some? && header.value.receipt > 0, "RECEIPT",
                        Call.Send(header, message.Bytes(), message.size));
    }

    /** `stomp_send`; the message's memory must hold what its size claims. */
    method Send(header: Option<TransactionHeader>, message: Message) returns (code: StatusCode, ghost e: Event)
      requires path != "" && AddressableBody(message.Bytes(), message.size)
      modifies this`status, connection
      ensures e.call == Call.Send(header, message.Bytes(), message.size)
      ensures Next(old(Abs()), e, Abs())
      ensures code == e.code && Submitted(old(connection.inbound), old(connection.log), e)
    {
      var headers := exchange.hash;
      if stripRoot {
        headers := headers["destination" := path[1..]];
      } else {
        headers := headers["destination" := path];
      }
      if header.Some? {
        headers := WriteTransactionId(headers, header.value.transactionId);
        headers := WriteReceipt(headers, header.value.receipt);
      }
      assert headers == TransactionTable(exchange.hash["destination" := Destination(path, stripRoot)], header);
      code, e := SubmitMessage(headers, header, message);
    }

    /** What a receive makes of its wait. */
    method TakeIn(ready: bool, rc: AprStatus, frame: Option<Frame>, message: Message) returns (code: StatusCode)
      requires frame.Some? ==>
                 && ready && frame.value.headers.Some?
                 && frame.value.body.Some? && frame.value.bodyLength == |frame.value.body.value|
      modifies this`status, exchange, message
      ensures code == if !ready then NoData
                      else if frame.Some? then (if "MESSAGE" <= frame.value.command then Succeeded else Failed)
                      else if rc == TimeUp then Succeeded else Failed
      ensures status == if frame.Some? || code == Succeeded then old(status) else code
      ensures exchange.hash ==
              if frame.Some? then old(exchange.hash) + frame.value.headers.value else old(exchange.hash)
      ensures if frame.Some? then message.Holds(CText(frame.value.body.value))
              else message.body == old(message.body) && message.size == old(message.size)
    {
      if !ready {
        status, code := NoData, NoData;
      } else if frame.Some? {
        var body := frame.value.body.value;
        message.Format(body, frame.value.bodyLength);
        assert body[..|body|] == body;
        exchange.hash := exchange.hash + frame.value.headers.value;
        code := if "MESSAGE" <= frame.value.command then Succeeded else Failed;
      } else if rc == TimeUp {
        code := Succeeded;
      } else {
        status, code := Failed, Failed;
      }
    }

    /** Waiting for a frame and taking it in. */
    method ReceiveFrame(message: Message) returns (code: StatusCode, ghost wait: Wait)
      modifies this`status, exchange, message
      modifies connection`inbound, connection`received, connection`log
      ensures Receives(old(Abs()), wait, Abs()) && !wait.NoWait?
      ensures Observed(old(connection.inbound), old(connection.log), wait)
      ensures code == match wait
                      case Reply(_, _, f) => if "MESSAGE" <= f.command then Succeeded else Failed
                      case Broken(_, _, rc) => if rc == TimeUp then Succeeded else Failed
                      case _ => NoData
      ensures status == if wait.Reply? || code == Succeeded then old(status) else code
      ensures wait.Reply? ==>
                && wait.frame.headers.Some? && exchange.hash == old(exchange.hash) + wait.frame.headers.value
                && wait.frame.body.Some? && message.Holds(CText(wait.frame.body.value))
      ensures !wait.Reply? ==>
                && exchange.hash == old(exchange.hash)
                && message.body == old(message.body) && message.size == old(message.size)
    {
      var ready, rc, frame;
      ready, rc, frame, wait := AwaitFrame();
      code := TakeIn(ready, rc, frame, message);
    }

    /**
     `stomp_receive`. Whatever frame is read is put into the message and its headers
     override the exchange properties, even when it is not a MESSAGE.
     */
    method Receive(message: Message) returns (code: StatusCode, ghost e: Event)
      requires path != ""
      modifies this`status, exchange, message
      modifies connection`inbound, connection`received, connection`log
      ensures e.call == Call.Receive && Next(old(Abs()), e, Abs())
      ensures code == e.code && Observed(old(connection.inbound), old(connection.log), e.wait)
      ensures !connection.log.polled ==>
                code == NoData && status == NoData && connection.received == old(connection.received)
      ensures e.wait.Reply? ==> (code == Succeeded <==> "MESSAGE" <= e.wait.frame.command) && code != NoData
      ensures connection.log.polled && !e.wait.Reply? ==>
                && e.wait.Broken? && code == (if e.wait.rc == TimeUp then Succeeded else Failed)
                && (code == Succeeded ==> connection.log.lastRecv == TimeUp)
      ensures connection.log.polled ==> status == if e.wait.Reply? || code == Succeeded then old(status) else Failed
      ensures if e.wait.Reply?
              then e.wait.frame.body.Some? && message.Holds(CText(e.wait.frame.body.value))
              else message.body == old(message.body) && message.size == old(message.size)
    {
      ghost var s := Abs();
      ghost var wait;
      code, wait := ReceiveFrame(message);
      e := Event(Call.Receive, None, [], "", true, wait, code);
      ghost var m := s.(inbound := connection.inbound, received := connection.received);
      ReceiveIsNext(s, e, m, Abs());
    }
  }
}
