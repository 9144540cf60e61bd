/**
 What each API call says on the wire and what it reports, spelled out: the command, every
 header by name with the call's own values, the body, the code and the status.
 */
module Calls {
  import opened CValues
  import opened Frames
  import opened Wire
  import opened RoundTrip
  import opened WireFormat
  import opened Socket
  import opened Protocol

  // ----- Commands -----

  predicate FirstLine(wire: string, line: string) {
    TakeLine(wire).Line? && TakeLine(wire).text == line && line + "\n" <= wire
  }

  lemma EncodedFirstLine(f: Frame, entries: seq<Entry>)
    requires PlainCommand(f.command)
    ensures FirstLine(Encode(f, entries), f.command)
  {
    EncodeSplits(f, entries, "");
    assert Encode(f, entries) + "" == Encode(f, entries);
    WholeLine(f.command, HeaderBytes(f, entries) + ("\n" + (BodyBytes(f) + TERMINATOR + "")));
  }

  /** The command of every completed call, in every session. */
  lemma CommandIsWritten(s: Session, e: Event, t: Session)
    requires Next(s, e, t) && e.complete
    ensures match e.call
            case Connect(_) => FirstLine(e.written, "CONNECT")
            case Disconnect(_) => FirstLine(e.written, "DISCONNECT")
            case Subscribe(None) => e.written == ""
            case Subscribe(Some(_)) => FirstLine(e.written, "SUBSCRIBE")
            case Unsubscribe(_) => FirstLine(e.written, "UNSUBSCRIBE")
            case Ack(_) => FirstLine(e.written, "ACK")
            case Nack(_) => FirstLine(e.written, "NACK")
            case Begin(_) => FirstLine(e.written, "BEGIN")
            case Commit(_) => FirstLine(e.written, "COMMIT")
            case Abort(_) => FirstLine(e.written, "ABORT")
            case Send(_, _, _) => FirstLine(e.written, "SEND")
            case Receive => e.written == ""
            case Add(_, _) => e.written == ""
            case Clear => e.written == ""
  {
    PlainCommands(e.call);
    if e.frame.Some? {
      EncodedFirstLine(e.frame.value, e.entries);
    }
  }

  // ----- Headers -----

  /** The value that a reader of the bytes finds under a header's name. */
  function HeaderOn(wire: string, key: string): Option<string> {
    match TakeLine(wire)
    case Line(_, block) =>
      (match TakeHeaders(block, map[])
       case Headers(table, _) => Lookup(table, key)
       case BadHeaders(_, _) => None)
    case _ => None
  }

  /** What a reader of the bytes finds behind the headers. */
  function BehindHeaders(wire: string): Option<string> {
    match TakeLine(wire)
    case Line(_, block) =>
      (match TakeHeaders(block, map[])
       case Headers(_, rest) => Some(rest)
       case BadHeaders(_, _) => None)
    case _ => None
  }

  /** The step wrote all of its frame, with text that needs no escaping. */
  ghost predicate Plainly(s: Session, e: Event, t: Session) {
    Next(s, e, t) && e.complete && PlainSession(s.path, s.exchange) && PlainCall(e.call)
  }

  /** A completed call's own table, with content-length, is what a reader of the wire finds. */
  lemma FrameIsWritten(s: Session, e: Event, t: Session, key: string)
    requires Plainly(s, e, t) && e.frame.Some?
    ensures var f := e.frame.value;
            && f.headers.Some?
            && HeaderOn(e.written, key) ==
               (if key == "content-length" then Some(Itoa(PrintedLength(f))) else Lookup(f.headers.value, key))
            && BehindHeaders(e.written) == Some(BodyBytes(f) + "\0\n")
  {
    CallsWriteWellFormedFrames(s.path, s.stripRoot, s.exchange, e.call);
    EncodedHead(e.frame.value, e.entries);
  }

  lemma OrderExists(f: Frame) returns (entries: seq<Entry>)
    ensures Order(f, entries)
  {
    entries := [];
    if f.headers.Some? {
      entries := EnumerationExists(f.headers.value);
    }
  }

  /** A frame can be written whole, and a wait can then be in vain. */
  lemma WholeWrite(s: Session, call: Call, f: Frame, wait: Wait) returns (e: Event, m: Session)
    requires wait == if Awaits(call) then Idle("") else NoWait
    requires s.inbound == ""
    ensures e.call == call && e.frame == Some(f) && e.complete && e.wait == wait && e.code == CodeOf(e)
    ensures Writes(s, e, m) && m == s.(sent := m.sent)
    ensures Receives(m, wait, m.(status := StatusAfter(s.status, e)))
  {
    var entries := OrderExists(f);
    e := Event(call, Some(f), entries, Encode(f, entries), true, wait, Failed);
    e := e.(code := CodeOf(e));
    m := s.(sent := s.sent + Encode(f, entries));
  }

  /** Such steps exist: a plain session can make every writing call with plain values. */
  lemma CallHappens(s: Session, call: Call) returns (e: Event, t: Session)
    requires PlainSession(s.path, s.exchange) && PlainCall(call) && s.inbound == ""
    requires FrameFor(s.path, s.stripRoot, s.exchange, call).Some?
    ensures Plainly(s, e, t) && e.call == call && e.frame.Some?
  {
    var f := FrameFor(s.path, s.stripRoot, s.exchange, call).value;
    var m;
    e, m := WholeWrite(s, call, f, if Awaits(call) then Idle("") else NoWait);
    t := m.(status := StatusAfter(s.status, e));
    WriteIsNext(s, e, m, t);
  }

  lemma BodylessFrames(s: Session, e: Event, t: Session)
    requires Next(s, e, t) && e.frame.Some?
    requires e.call.Send? ==> e.call.body == None && e.call.size == 0xFFFF_FFFF_FFFF_FFFF
    ensures e.frame.value.body == None && e.frame.value.bodyLength == 0xFFFF_FFFF_FFFF_FFFF
  {
  }

  /** A call without body, which a SEND of a new message is too, says so with a length of -1. */
  lemma NoBodyIsWritten(s: Session, e: Event, t: Session)
    requires Plainly(s, e, t) && e.frame.Some?
    requires e.call.Send? ==> e.call.body == None && e.call.size == 0xFFFF_FFFF_FFFF_FFFF
    ensures HeaderOn(e.written, "content-length") == Some("-1") && BehindHeaders(e.written) == Some("\0\n")
  {
    FrameIsWritten(s, e, t, "content-length");
    BodylessFrames(s, e, t);
    WrittenMinusOne(e.frame.value);
    assert "" + "\0\n" == "\0\n";
  }

  lemma ConnectHeaders(credentials: Option<Credentials>, key: string)
    ensures Lookup(ConnectTable(credentials), key) ==
            if key == "accept-version" then Some("1.2")
            else if key == "login" && credentials.Some? then credentials.value.username
            else if key == "passcode" && credentials.Some? then credentials.value.password
            else None
  {
  }

  lemma ConnectIsWritten(s: Session, e: Event, t: Session, credentials: Option<Credentials>, key: string)
    requires Plainly(s, e, t) && e.call == Connect(credentials)
    ensures key != "content-length" ==>
              HeaderOn(e.written, key) ==
              if key == "accept-version" then Some("1.2")
              else if key == "login" && credentials.Some? then credentials.value.username
              else if key == "passcode" && credentials.Some? then credentials.value.password
              else None
  {
    FrameIsWritten(s, e, t, key);
    ConnectHeaders(credentials, key);
  }

  lemma DisconnectIsWritten(s: Session, e: Event, t: Session, receipt: Option<Receipt>, key: string)
    requires Plainly(s, e, t) && e.call == Disconnect(receipt)
    ensures key != "content-length" ==>
              HeaderOn(e.written, key) ==
              if key == "receipt" && receipt.Some? && receipt.value > 0 then Some(Itoa(AsInt(receipt.value)))
              else None
  {
    FrameIsWritten(s, e, t, key);
  }

  lemma SubscriptionHeaders(destination: string, h: Subscription, key: string)
    ensures Lookup(SubscriptionTable(destination, h), key) ==
            if key == "destination" then Some(destination)
            else if key == "id" then Some(Itoa(h.id))
            else if key == "receipt" && h.receipt > 0 then Some(Itoa(AsInt(h.receipt)))
            else None
  {
  }

  /** With the root stripped, the destination is the path without its first character. */
  lemma SubscribeIsWritten(s: Session, e: Event, t: Session, h: Subscription, root: char, name: string, key: string)
    requires Plainly(s, e, t) && e.call == Subscribe(Some(h)) && s.path == [root] + name
    ensures key != "content-length" ==>
              HeaderOn(e.written, key) ==
              if key == "destination" then Some(if s.stripRoot then name else [root] + name)
              else if key == "id" then Some(Itoa(h.id))
              else if key == "receipt" && h.receipt > 0 then Some(Itoa(AsInt(h.receipt)))
              else None
  {
    FrameIsWritten(s, e, t, key);
    assert ([root] + name)[1..] == name;
    SubscriptionHeaders(if s.stripRoot then name else [root] + name, h, key);
  }

  /** A subscription is cancelled under the whole path, even with the root stripped. */
  lemma UnsubscribeIsWritten(s: Session, e: Event, t: Session, h: Subscription, key: string)
    requires Plainly(s, e, t) && e.call == Unsubscribe(h)
    ensures key != "content-length" ==>
              HeaderOn(e.written, key) ==
              if key == "destination" then Some(s.path)
              else if key == "id" then Some(Itoa(h.id))
              else if key == "receipt" && h.receipt > 0 then Some(Itoa(AsInt(h.receipt)))
              else None
  {
    FrameIsWritten(s, e, t, key);
    SubscriptionHeaders(s.path, h, key);
  }

  lemma AckIsWritten(s: Session, e: Event, t: Session, header: Option<AckHeader>, key: string)
    requires Plainly(s, e, t) && (e.call == Ack(header) || e.call == Nack(header))
    ensures key != "content-length" ==>
              HeaderOn(e.written, key) ==
              match header {
                case None => None
                case Some(h) =>
                  if key == "id" && h.messageId >= 0 then Some(Itoa(AsInt(h.messageId)))
                  else if key == "transaction" && h.transactionId >= 0 then Some(Itoa(AsInt(h.transactionId)))
                  else if key == "receipt" && h.receipt > 0 then Some(Itoa(AsInt(h.receipt)))
                  else None
              }
  {
    FrameIsWritten(s, e, t, key);
    if header.Some? {
      AckHeaders(header.value, key);
    }
  }

  lemma TransactionIsWritten(s: Session, e: Event, t: Session, header: Option<TransactionHeader>, key: string)
    requires Plainly(s, e, t)
    requires e.call == Begin(header) || e.call == Commit(header) || e.call == Abort(header)
    ensures key != "content-length" ==>
              HeaderOn(e.written, key) ==
              match header {
                case None => None
                case Some(h) =>
                  if key == "transaction" && h.transactionId >= 0 then Some(Itoa(AsInt(h.transactionId)))
                  else if key == "receipt" && h.receipt > 0 then Some(Itoa(AsInt(h.receipt)))
                  else None
              }
  {
    FrameIsWritten(s, e, t, key);
  }

  /** Every header of a SEND: the call's own, the destination, and the exchange properties elsewhere. */
  lemma SendIsWritten(s: Session, e: Event, t: Session, header: Option<TransactionHeader>,
                      root: char, name: string, key: string)
    requires Plainly(s, e, t) && e.call.Send? && e.call.header == header && s.path == [root] + name
    ensures key != "content-length" ==>
              HeaderOn(e.written, key) ==
              if key == "receipt" && header.Some? && header.value.receipt > 0
              then Some(Itoa(AsInt(header.value.receipt)))
              else if key == "transaction" && header.Some? && header.value.transactionId >= 0
              then Some(Itoa(AsInt(header.value.transactionId)))
              else if key == "destination" then Some(if s.stripRoot then name else [root] + name)
              else if key in s.exchange then Some(s.exchange[key])
              else None
  {
    FrameIsWritten(s, e, t, key);
    assert ([root] + name)[1..] == name;
    if header.Some? {
      SendHeaders(s.exchange, Destination(s.path, s.stripRoot), header.value, key);
    }
  }

  /** The body of a SEND whose size is a positive `int` is as long as that. */
  lemma SendCountIsWritten(s: Session, e: Event, t: Session, body: string, size: nat)
    requires Plainly(s, e, t) && e.call.Send? && e.call.body == Some(body) && e.call.size == size
    requires 1 <= AsInt(size) <= |body|
    ensures HeaderOn(e.written, "content-length") == Some(Itoa(AsInt(size)))
    ensures BehindHeaders(e.written) == Some(body[..AsInt(size)] + "\0\n")
  {
    FrameIsWritten(s, e, t, "content-length");
    WrittenCount(e.frame.value);
  }

  /** With any other size, 0 and -1 among them, the body of a SEND is a text with its NUL. */
  lemma SendTextIsWritten(s: Session, e: Event, t: Session, body: string, size: nat, text: string)
    requires Plainly(s, e, t) && e.call.Send? && e.call.body == Some(body) && e.call.size == size
    requires AsInt(size) <= 0
    requires '\0' !in text && text + "\0" <= body && |text| < 0x7FFF_FFFF
    ensures HeaderOn(e.written, "content-length") == Some(Itoa(|text| + 1))
    ensures BehindHeaders(e.written) == Some(text + "\0" + "\0\n")
  {
    FrameIsWritten(s, e, t, "content-length");
    WrittenText(e.frame.value, text);
  }

  // ----- Waiting, codes and the status field -----

  /** Which calls go on to wait for a frame. */
  lemma CallsThatWait(s: Session, e: Event, t: Session)
    requires Next(s, e, t)
    ensures !e.wait.NoWait? <==>
            e.complete &&
            match e.call {
              case Connect(_) => true
              case Disconnect(r) => r.Some? && r.value > 0
              case Subscribe(h) => h.Some? && h.value.receipt > 0
              case Unsubscribe(h) => h.receipt > 0
              case Ack(h) => h.Some? && h.value.receipt > 0
              case Nack(h) => h.Some? && h.value.receipt > 0
              case Begin(h) => h.Some? && h.value.receipt > 0
              case Commit(h) => h.Some? && h.value.receipt > 0
              case Abort(h) => h.Some? && h.value.receipt > 0
              case Send(h, _, _) => h.Some? && h.value.receipt > 0
              case Receive => true
              case Add(_, _) => false
              case Clear => false
            }
  {
  }

  /** The wait ended with a frame whose command starts as given. */
  predicate Got(wait: Wait, start: string) {
    wait.Reply? && start <= wait.frame.command
  }

  /** What every call reports. */
  lemma CodeIsReported(s: Session, e: Event, t: Session)
    requires Next(s, e, t)
    ensures match e.call
            case Connect(_) => e.code == if e.complete && Got(e.wait, "CONNECTED") then Succeeded else Failed
            case Subscribe(None) => e.code == Failed && e.wait.NoWait?
            case Receive =>
              (e.code == match e.wait
                         case Idle(_) => NoData
                         case Broken(_, _, rc) => if rc == TimeUp then Succeeded else Failed
                         case _ => if Got(e.wait, "MESSAGE") then Succeeded else Failed)
            case Add(_, _) => e.code == Succeeded
            case Clear => e.code == Succeeded
            case _ =>
              e.code == if e.complete && (e.wait.NoWait? || Got(e.wait, "RECEIPT")) then Succeeded else Failed
  {
  }

  /** The status field keeps its value unless a call fails or a receive has nothing to read. */
  lemma StatusIsKept(s: Session, e: Event, t: Session)
    requires Next(s, e, t)
    ensures t.status ==
            if e.call.Receive? then
              (match e.wait
               case Idle(_) => NoData
               case Broken(_, _, rc) => if rc == TimeUp then s.status else Failed
               case _ => s.status)
            else if e.code == Succeeded then s.status
            else Failed
  {
  }

  /** A call that waits in vain takes no byte from the connection. */
  lemma IdleTakesNothing(s: Session, e: Event, t: Session)
    requires Next(s, e, t) && e.wait.Idle?
    ensures t.received == s.received && t.inbound == s.inbound + e.wait.arrived && t.exchange == s.exchange
    ensures e.code == if e.call.Receive? then NoData else Failed
  {
  }
}
