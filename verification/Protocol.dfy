/**
 The messenger as a state machine: what each API call may do to a session.

 An `Event` records one call together with everything its environment decided: the
 order of the header table, how much of the frame was written, what arrived during the
 wait and how the receives were served. `Next` says what the call makes of that.
 */
module Protocol {
  import opened CValues
  import opened Frames
  import opened Wire
  import opened RoundTrip
  import opened Reading
  import opened Socket
  import opened StompIo

  type Receipt = x: int | 0 <= x < 0x1_0000_0000
  type SubscriptionId = x: int | 0 <= x < 0x1_0000
  type Int64 = x: int | -INT64_MAX - 1 <= x <= INT64_MAX

  datatype Credentials = Credentials(username: Option<string>, password: Option<string>)
  datatype Subscription = Subscription(id: SubscriptionId, receipt: Receipt)
  datatype AckHeader = AckHeader(messageId: Int64, transactionId: Int64, receipt: Receipt)
  datatype TransactionHeader = TransactionHeader(transactionId: Int64, receipt: Receipt)

  /** The API calls; a header that is a NULL pointer, or one without credentials, is None. */
  datatype Call =
    | Connect(credentials: Option<Credentials>)
    | Disconnect(closing: Option<Receipt>)
    | Subscribe(subscription: Option<Subscription>)
    | Unsubscribe(cancelled: Subscription)
    | Ack(ack: Option<AckHeader>)
    | Nack(nack: Option<AckHeader>)
    | Begin(begun: Option<TransactionHeader>)
    | Commit(committed: Option<TransactionHeader>)
    | Abort(aborted: Option<TransactionHeader>)
    | Send(header: Option<TransactionHeader>, body: Option<string>, size: nat)
    | Receive
    | Add(name: string, value: Option<string>)
    | Clear

  /** STOMP_FAILURE, STOMP_SUCCESS, and STOMP_SUCCESS | STOMP_NO_DATA. */
  datatype StatusCode = Failed | Succeeded | NoData

  /** A messenger and the streams of its connection. */
  datatype Session = Session(
    path: string, stripRoot: bool, exchange: Table, status: StatusCode,
    steady: bool, inbound: string, received: string, sent: string)

  /** What became of waiting for a frame; `arrived` are the bytes that came in meanwhile. */
  datatype Wait =
    | NoWait
    | Idle(arrived: string)
    | Broken(arrived: string, delivery: Delivery, rc: AprStatus)
    | Reply(arrived: string, delivery: Delivery, frame: Frame)

  datatype Event = Event(
    call: Call, frame: Option<Frame>, entries: seq<Entry>, written: string, complete: bool,
    wait: Wait, code: StatusCode)

  // ----- The frame of a call -----

  function Destination(path: string, stripRoot: bool): string
    requires path != ""
  {
    if stripRoot then path[1..] else path
  }

  function WithReceipt(t: Table, receipt: Receipt): Table {
    if receipt > 0 then t["receipt" := Itoa(AsInt(receipt))] else t
  }

  function WithTransaction(t: Table, id: Int64): Table {
    if id > -1 then t["transaction" := Itoa(AsInt(id))] else t
  }

  function WithMessageId(t: Table, id: Int64): Table {
    if id > -1 then t["id" := Itoa(AsInt(id))] else t
  }

  function ConnectTable(credentials: Option<Credentials>): Table {
    var t: Table :=
      match credentials
      case None => map[]
      case Some(c) => Put(Put(map[], "login", c.username), "passcode", c.password);
    t["accept-version" := "1.2"]
  }

  function AckTable(header: Option<AckHeader>): Table {
    match header
    case None => map[]
    case Some(h) => WithReceipt(WithTransaction(WithMessageId(map[], h.messageId), h.transactionId), h.receipt)
  }

  function TransactionTable(t: Table, header: Option<TransactionHeader>): Table {
    match header
    case None => t
    case Some(h) => WithReceipt(WithTransaction(t, h.transactionId), h.receipt)
  }

  function SubscriptionTable(destination: string, h: Subscription): Table {
    WithReceipt(map["destination" := destination, "id" := Itoa(AsInt(h.id))], h.receipt)
  }

  /** A frame without body: NULL and a length of -1 in a `size_t`. */
  function Control(command: string, table: Table): Frame {
    Frame(command, Some(table), None, SIZE_MAX)
  }

  function CommandOf(call: Call): string {
    match call
    case Connect(_) => "CONNECT"
    case Disconnect(_) => "DISCONNECT"
    case Subscribe(_) => "SUBSCRIBE"
    case Unsubscribe(_) => "UNSUBSCRIBE"
    case Ack(_) => "ACK"
    case Nack(_) => "NACK"
    case Begin(_) => "BEGIN"
    case Commit(_) => "COMMIT"
    case Abort(_) => "ABORT"
    case Send(_, _, _) => "SEND"
    case _ => ""
  }

  /** The frame that a call writes, if it writes one. */
  function FrameFor(path: string, stripRoot: bool, exchange: Table, call: Call): Option<Frame>
    requires path != ""
  {
    var command := CommandOf(call);
    match call
    case Connect(c) => Some(Control(command, ConnectTable(c)))
    case Disconnect(r) => Some(Control(command, if r.Some? then WithReceipt(map[], r.value) else map[]))
    case Subscribe(None) => None
    case Subscribe(Some(h)) => Some(Control(command, SubscriptionTable(Destination(path, stripRoot), h)))
    case Unsubscribe(h) => Some(Control(command, SubscriptionTable(path, h)))
    case Ack(h) => Some(Control(command, AckTable(h)))
    case Nack(h) => Some(Control(command, AckTable(h)))
    case Begin(h) => Some(Control(command, TransactionTable(map[], h)))
    case Commit(h) => Some(Control(command, TransactionTable(map[], h)))
    case Abort(h) => Some(Control(command, TransactionTable(map[], h)))
    case Send(h, body, size) =>
      var table := TransactionTable(exchange["destination" := Destination(path, stripRoot)], h);
      Some(Frame(command, Some(table), body, size))
    case Receive => None
    case Add(_, _) => None
    case Clear => None
  }

  /** The receipt that a call asks for; 0 asks for none. */
  function ReceiptOf(call: Call): Receipt {
    match call
    case Disconnect(Some(r)) => r
    case Subscribe(Some(h)) => h.receipt
    case Unsubscribe(h) => h.receipt
    case Ack(Some(h)) => h.receipt
    case Nack(Some(h)) => h.receipt
    case Begin(Some(h)) => h.receipt
    case Commit(Some(h)) => h.receipt
    case Abort(Some(h)) => h.receipt
    case Send(Some(h), _, _) => h.receipt
    case _ => 0
  }

  /** The calls that go on to wait for a frame once their own is written. */
  predicate Awaits(call: Call) {
    call.Connect? || call.Receive? || ReceiptOf(call) > 0
  }

  /** The command that the awaited frame must start with. */
  function Expected(call: Call): string {
    if call.Connect? then "CONNECTED" else if call.Receive? then "MESSAGE" else "RECEIPT"
  }

  // ----- What a call reports and keeps -----

  function CodeOf(e: Event): StatusCode {
    if (e.call.Subscribe? && e.call.subscription.None?) || !e.complete then Failed
    else
      match e.wait
      case NoWait => Succeeded
      case Idle(_) => if e.call.Receive? then NoData else Failed
      case Broken(_, _, rc) => if e.call.Receive? && rc == TimeUp then Succeeded else Failed
      case Reply(_, _, f) => if Expected(e.call) <= f.command then Succeeded else Failed
  }

  /** The status field changes with a failure or a lack of data, except in two cases of receive. */
  function StatusAfter(status: StatusCode, e: Event): StatusCode {
    if CodeOf(e) == Succeeded || (e.call.Receive? && e.wait.Reply?) then status else CodeOf(e)
  }

  function ExchangeAfter(exchange: Table, e: Event): Table {
    match e.call
    case Add(name, value) => Put(exchange, name, value)
    case Clear => map[]
    case Receive =>
      if e.wait.Reply? && e.wait.frame.headers.Some? then exchange + e.wait.frame.headers.value else exchange
    case _ => exchange
  }

  // ----- One step -----

  /** The call's frame, or after a failed write a prefix of it, was appended to the wire. */
  ghost predicate Writes(s: Session, e: Event, t: Session) {
    t.sent == s.sent + e.written &&
    match e.frame
    case None => e.written == "" && e.complete
    case Some(f) =>
      && Order(f, e.entries) && e.written <= Encode(f, e.entries)
      && (e.complete ==> e.written == Encode(f, e.entries))
      && (s.steady ==> e.complete)
  }

  /** The call took from the input what its wait says; a steady socket leaves it no choice. */
  ghost predicate Receives(s: Session, wait: Wait, t: Session) {
    match wait
    case NoWait => t.inbound == s.inbound && t.received == s.received
    case Idle(arrived) =>
      t.inbound == s.inbound + arrived && t.received == s.received && (s.steady ==> t.inbound == "")
    case Broken(arrived, _, rc) =>
      && rc != Success && Conserved(s.received, s.inbound + arrived, t.received, t.inbound)
      && (s.steady ==>
            match Parse(s.inbound + arrived) {
              case Parsed(_, _) => false
              case Rejected(rest, malformed) => t.inbound == rest && (malformed ==> rc == General)
              case Undefined => t.inbound == ""
            })
    case Reply(arrived, d, f) =>
      && Conserved(s.received, s.inbound + arrived, t.received, t.inbound)
      && ParseUnder(s.inbound + arrived, d) == Parsed(f, t.inbound)
      && (s.steady ==>
            match Parse(s.inbound + arrived) {
              case Parsed(g, rest) => g == f && rest == t.inbound
              case Rejected(_, _) => false
              case Undefined => true
            })
  }

  /** One API call takes session `s` to session `t`. */
  ghost predicate Next(s: Session, e: Event, t: Session) {
    && s.path != "" && t.path == s.path && t.stripRoot == s.stripRoot && t.steady == s.steady
    && e.frame == FrameFor(s.path, s.stripRoot, s.exchange, e.call) && Writes(s, e, t)
    && (!e.wait.NoWait? <==> Awaits(e.call) && e.complete)
    && Receives(s, e.wait, t)
    && e.code == CodeOf(e)
    && t.status == StatusAfter(s.status, e)
    && t.exchange == ExchangeAfter(s.exchange, e)
  }

  lemma WroteIsWrites(s: Session, e: Event, t: Session, f: Frame, rc: AprStatus)
    requires e.frame == Some(f) && Order(f, e.entries)
    requires Wrote(rc, s.sent, t.sent, Encode(f, e.entries)) && e.complete == (rc == Success)
    requires |s.sent| <= |t.sent| && e.written == t.sent[|s.sent|..] && (s.steady ==> rc == Success)
    ensures Writes(s, e, t)
  {
    var full := Encode(f, e.entries);
    assert t.sent == s.sent + e.written;
    assert (s.sent + full)[|s.sent|..] == full;
  }

  /** A call that wrote its frame, reaching `m`, and then waited if a reply is due. */
  lemma WriteIsNext(s: Session, e: Event, m: Session, t: Session)
    requires s.path != "" && e.frame == FrameFor(s.path, s.stripRoot, s.exchange, e.call) && e.frame.Some?
    requires Writes(s, e, m) && m == s.(sent := m.sent) && Receives(m, e.wait, t)
    requires (!e.wait.NoWait? <==> Awaits(e.call) && e.complete) && e.code == CodeOf(e)
    requires t == m.(inbound := t.inbound, received := t.received, status := StatusAfter(s.status, e))
    ensures Next(s, e, t)
  {
  }

  /** A receive, which waits without writing. */
  lemma ReceiveIsNext(s: Session, e: Event, m: Session, t: Session)
    requires s.path != "" && e.call.Receive? && e.frame == None && e.written == "" && e.complete
    requires !e.wait.NoWait? && Receives(s, e.wait, m) && m == s.(inbound := m.inbound, received := m.received)
    requires e.code == CodeOf(e)
    requires t == m.(status := StatusAfter(s.status, e), exchange := ExchangeAfter(s.exchange, e))
    ensures Next(s, e, t)
  {
    assert s.sent == s.sent + e.written;
  }

  /** Bytes that hold a frame can be received from a session without input. */
  lemma FrameIsReceived(r: Session, w: string, c: string, f: Frame, rest: string)
    requires r.inbound == "" && w == c + rest && Parse(w) == Parsed(f, rest)
    ensures Receives(r, Reply(w, Full(w), f), r.(received := r.received + c, inbound := rest))
  {
    ReceivedIsConserved(r.received, w, c, rest);
    assert r.inbound + w == w;
  }

  // ----- Frames that calls write -----

  /** The session can put its own values into headers without escaping. */
  predicate PlainSession(path: string, exchange: Table) {
    path != "" && PlainValue(path) && PlainTable(exchange)
  }

  predicate PlainOption(value: Option<string>) {
    value.Some? ==> PlainValue(value.value)
  }

  /** The call's own values need no escaping. */
  predicate PlainCall(call: Call) {
    match call
    case Connect(Some(c)) => PlainOption(c.username) && PlainOption(c.password)
    case Add(name, value) => PlainKey(name) && PlainOption(value)
    case _ => true
  }

  /** A plain session stays plain: whatever a peer sends, received headers are plain. */
  lemma NextKeepsPlain(s: Session, e: Event, t: Session)
    requires Next(s, e, t) && PlainSession(s.path, s.exchange) && PlainCall(e.call)
    ensures PlainSession(t.path, t.exchange)
  {
    if e.call.Receive? && e.wait.Reply? {
      ReadShape(s.inbound + e.wait.arrived, e.wait.delivery);
    }
  }

  lemma PlainPut(t: Table, key: string, value: Option<string>)
    requires PlainTable(t) && PlainKey(key) && PlainOption(value)
    ensures PlainTable(Put(t, key, value))
  {
  }

  lemma PlainTables(t: Table, id: Int64, receipt: Receipt)
    requires PlainTable(t)
    ensures PlainTable(WithReceipt(t, receipt)) && PlainTable(WithTransaction(t, id))
    ensures PlainTable(WithMessageId(t, id))
  {
    ItoaIsPlain(AsInt(id));
    ItoaIsPlain(AsInt(receipt));
    PlainPut(t, "receipt", Some(Itoa(AsInt(receipt))));
    PlainPut(t, "transaction", Some(Itoa(AsInt(id))));
    PlainPut(t, "id", Some(Itoa(AsInt(id))));
  }

  lemma PlainTransactionTable(t: Table, header: Option<TransactionHeader>)
    requires PlainTable(t)
    ensures PlainTable(TransactionTable(t, header))
  {
    if header.Some? {
      PlainTables(t, header.value.transactionId, 0);
      PlainTables(WithTransaction(t, header.value.transactionId), 0, header.value.receipt);
    }
  }

  /** Every header of an ACK or NACK: ids that are not negative, and a receipt that is asked for. */
  lemma AckHeaders(h: AckHeader, key: string)
    ensures Lookup(AckTable(Some(h)), key) ==
            if key == "receipt" && h.receipt > 0 then Some(Itoa(AsInt(h.receipt)))
            else if key == "transaction" && h.transactionId >= 0 then Some(Itoa(AsInt(h.transactionId)))
            else if key == "id" && h.messageId >= 0 then Some(Itoa(AsInt(h.messageId)))
            else None
  {
  }

  lemma PlainAckTable(header: Option<AckHeader>)
    ensures PlainTable(AckTable(header))
  {
    if header.Some? {
      var h := header.value;
      ItoaIsPlain(AsInt(h.receipt));
      ItoaIsPlain(AsInt(h.transactionId));
      ItoaIsPlain(AsInt(h.messageId));
      forall k | k in AckTable(header) ensures PlainKey(k) && PlainValue(AckTable(header)[k]) {
        AckHeaders(h, k);
        assert k in ["receipt", "transaction", "id"];
      }
    }
  }

  lemma PlainSubscriptionTable(destination: string, h: Subscription)
    requires PlainValue(destination)
    ensures PlainTable(SubscriptionTable(destination, h))
  {
    ItoaIsPlain(AsInt(h.id));
    PlainTables(map["destination" := destination, "id" := Itoa(AsInt(h.id))], 0, h.receipt);
  }

  lemma PlainSendTable(path: string, stripRoot: bool, exchange: Table, header: Option<TransactionHeader>)
    requires PlainSession(path, exchange)
    ensures PlainTable(TransactionTable(exchange["destination" := Destination(path, stripRoot)], header))
  {
    PlainTransactionTable(exchange["destination" := Destination(path, stripRoot)], header);
  }

  lemma PlainCommands(call: Call)
    ensures PlainCommand(CommandOf(call))
  {
  }

  lemma PlainConnectTable(credentials: Option<Credentials>)
    requires PlainCall(Connect(credentials))
    ensures PlainTable(ConnectTable(credentials))
  {
    if credentials.Some? {
      var c := credentials.value;
      PlainPut(map[], "login", c.username);
      PlainPut(Put(map[], "login", c.username), "passcode", c.password);
      PlainPut(Put(Put(map[], "login", c.username), "passcode", c.password), "accept-version", Some("1.2"));
    } else {
      PlainPut(map[], "accept-version", Some("1.2"));
    }
  }

  /**
   No call can break the framing: whatever ids, receipts and options it is given, the
   frame it writes has well-formed text as long as path, properties and credentials do.
   */
  lemma CallsWriteWellFormedFrames(path: string, stripRoot: bool, exchange: Table, call: Call)
    requires PlainSession(path, exchange) && PlainCall(call)
    ensures var f := FrameFor(path, stripRoot, exchange, call); f.Some? ==> WellFormed(f.value)
  {
    PlainCommands(call);
    match call
    case Connect(c) => PlainConnectTable(c);
    case Disconnect(Some(r)) => PlainTables(map[], 0, r);
    case Subscribe(Some(h)) => PlainSubscriptionTable(Destination(path, stripRoot), h);
    case Unsubscribe(h) => PlainSubscriptionTable(path, h);
    case Ack(h) => PlainAckTable(h);
    case Nack(h) => PlainAckTable(h);
    case Begin(h) => PlainTransactionTable(map[], h);
    case Commit(h) => PlainTransactionTable(map[], h);
    case Abort(h) => PlainTransactionTable(map[], h);
    case Send(h, _, _) => PlainSendTable(path, stripRoot, exchange, h);
    case _ =>
  }

  /**
   Receipt accounting: the frame of a writing call other than CONNECT carries a receipt
   header exactly when the call waits for one frame, unless it is a SEND without receipt
   while "receipt" is an exchange property.
   */
  lemma ReceiptAccounting(path: string, stripRoot: bool, exchange: Table, call: Call)
    requires path != "" && !call.Connect? && FrameFor(path, stripRoot, exchange, call).Some?
    ensures var f := FrameFor(path, stripRoot, exchange, call).value;
            && f.headers.Some?
            && (("receipt" in f.headers.value <==> Awaits(call))
                <==> !(call.Send? && !Awaits(call) && "receipt" in exchange))
            && (Awaits(call) ==> f.headers.value["receipt"] == Itoa(AsInt(ReceiptOf(call))))
  {
    match call
    case Disconnect(Some(r)) =>
    case _ =>
  }

  /** With the root stripped, which is how a messenger starts, a subscription is cancelled elsewhere. */
  lemma UnsubscribeDestination(path: string, stripRoot: bool, exchange: Table, h: Subscription)
    requires path != ""
    ensures var sub := FrameFor(path, stripRoot, exchange, Subscribe(Some(h))).value;
            var unsub := FrameFor(path, stripRoot, exchange, Unsubscribe(h)).value;
            sub.headers.value["destination"] == unsub.headers.value["destination"] <==> !stripRoot
  {
    assert |path[1..]| == |path| - 1;
  }

  /** Every header of a SEND: the library's own where it sets them, the properties elsewhere. */
  lemma SendHeaders(exchange: Table, destination: string, h: TransactionHeader, key: string)
    ensures Lookup(TransactionTable(exchange["destination" := destination], Some(h)), key) ==
            if key == "receipt" && h.receipt > 0 then Some(Itoa(AsInt(h.receipt)))
            else if key == "transaction" && h.transactionId >= 0 then Some(Itoa(AsInt(h.transactionId)))
            else if key == "destination" then Some(destination)
            else Lookup(exchange, key)
  {
  }

  /** Of the frames that calls write, the reader could read back the SENDs with a body only. */
  lemma OnlySendsSurvive(path: string, stripRoot: bool, exchange: Table, call: Call)
    requires path != "" && FrameFor(path, stripRoot, exchange, call).Some?
    ensures Survives(FrameFor(path, stripRoot, exchange, call).value) <==> call.Send? && call.body.Some?
  {
  }

  /**
   64-bit message and transaction ids are printed through an `int`: two ids are written
   as the same header if and only if they agree modulo 2^32.
   */
  lemma IdsCollide(a: int, b: int)
    ensures Itoa(AsInt(a)) == Itoa(AsInt(b)) <==> (a - b) % 0x1_0000_0000 == 0
  {
    SameInt(a, b);
    DecimalRoundTrip(AsInt(a));
    DecimalRoundTrip(AsInt(b));
  }
}
