/** A message from one application to another: format, send, relay, receive, format. */
module EndToEnd {
  import opened CValues
  import opened Frames
  import opened Wire
  import opened RoundTrip
  import opened Reading
  import opened Deliveries
  import opened Message
  import opened Messenger
  import opened Protocol
  import opened Runs

  /** The properties that the library does not overwrite with headers of its own. */
  function Free(exchange: Table): Table {
    exchange - {"destination", "transaction", "receipt", "content-length"}
  }

  /** A text that a message can hold. */
  predicate PlainText(text: string) {
    '\0' !in text && |text| < INT_MAX
  }

  ghost predicate HasProperties(f: Frame, properties: Table) {
    f.headers.Some? && forall k :: k in properties ==> Lookup(f.headers.value, k) == Some(properties[k])
  }

  /** The frame brings a text with its NUL as the whole body, and some properties. */
  ghost predicate Carries(f: Frame, text: string, properties: Table) {
    f.body == Some(text + "\0") && f.bodyLength == |text| + 1 && HasProperties(f, properties)
  }

  /**
   What a broker may make of a SEND: any MESSAGE with the same body and, except for the
   keys that it changes, adds or drops, the same headers.
   */
  ghost predicate Relays(f: Frame, g: Frame, changed: set<string>) {
    && g.command == "MESSAGE" && f.headers.Some? && g.headers.Some?
    && g.body == f.body && g.bodyLength == f.bodyLength
    && forall k :: k in f.headers.value && k !in changed ==>
         Lookup(g.headers.value, k) == Some(f.headers.value[k])
  }

  // ----- Sending -----

  /** Every free property of the sender is a header of its SEND frame, with its value. */
  lemma PropertiesAreSent(path: string, stripRoot: bool, exchange: Table, h: Option<TransactionHeader>)
    requires path != ""
    ensures var t := TransactionTable(exchange["destination" := Destination(path, stripRoot)], h);
            forall k :: k in Free(exchange) ==> Lookup(t, k) == Some(exchange[k])
  {
    if h.Some? {
      forall k | k in Free(exchange) {
        SendHeaders(exchange, Destination(path, stripRoot), h.value, k);
      }
    }
  }

  /** Writing and reading a frame that has the text keeps text and properties. */
  lemma ReadBackCarries(f: Frame, text: string, properties: Table)
    requires f.headers.Some? && PlainText(text)
    requires f.body.Some? && text + "\0" <= f.body.value && f.bodyLength == |text| + 1
    requires "content-length" !in properties && HasProperties(f, properties)
    ensures Addressable(f) && Survives(f) && Carries(ReadBack(f), text, properties)
  {
    FormattedBody(f, text);
    forall k | k in properties ensures Lookup(TableBack(f), k) == Some(properties[k]) {
      assert Lookup(f.headers.value, k) == Some(properties[k]);
    }
  }

  /** What a reader of the sender's wire gets for a formatted message. */
  lemma SentMessageReadsBack(s: Session, e: Event, t: Session, text: string)
    requires Next(s, e, t) && e.call.Send? && e.complete && PlainSession(s.path, s.exchange) && PlainText(text)
    requires e.call.body.Some? && text + "\0" <= e.call.body.value && e.call.size == |text| + 1
    ensures e.frame.Some? && Parse(e.written) == Parsed(ReadBack(e.frame.value), "")
    ensures Carries(ReadBack(e.frame.value), text, Free(s.exchange))
  {
    var f := e.frame.value;
    CallsWriteWellFormedFrames(s.path, s.stripRoot, s.exchange, e.call);
    PropertiesAreSent(s.path, s.stripRoot, s.exchange, e.call.header);
    ReadBackCarries(f, text, Free(s.exchange));
    SurvivorComesBack(f, e.entries, "");
    assert e.written + "" == e.written;
  }

  // ----- Relaying -----

  lemma RelayCarries(f: Frame, g: Frame, changed: set<string>, text: string, properties: Table)
    requires Carries(f, text, properties) && Relays(f, g, changed)
    ensures Carries(g, text, properties - changed)
  {
    forall k | k in properties - changed
      ensures Lookup(g.headers.value, k) == Some((properties - changed)[k])
    {
      assert Lookup(f.headers.value, k) == Some(properties[k]);
    }
  }

  /** A MESSAGE with its header lines in any order, content-length being one of them, once. */
  lemma CountedMessage(table: Table, entries: seq<Entry>, body: string, tail: string)
    requires PlainTable(table) && Enumerates(entries, table) && body != ""
    requires "content-length" in table && Atoi64(table["content-length"]) == |body| <= SIZE_MAX
    ensures Parse("MESSAGE" + "\n" + (HeaderLines(entries) + ("\n" + (body + "\0\n" + tail))))
         == Parsed(Frame("MESSAGE", Some(table), Some(body), |body|), tail)
  {
    var rest := body + TERMINATOR + tail;
    var block := HeaderLines(entries) + ("\n" + rest);
    EntriesAreStored(entries, table);
    ParsePrintedHeaders(entries, rest, map[]);
    ParseParts("MESSAGE", block, rest, table, Full("MESSAGE" + "\n" + block));
    TakeCountedExact(body, tail, |"MESSAGE" + "\n" + block|);
  }

  // ----- Receiving -----

  /** The read was not completed by an unset byte that happened to be LF. */
  predicate Undisturbed(g: Frame, wait: Wait) {
    wait.Reply? && !Counted(g) ==> wait.delivery.stray != Some('\n')
  }

  /**
   Reading bytes that start with a frame that carries a text, whoever wrote them. Over any
   socket, however short its receives, the receiver gets no frame or exactly this one;
   over a steady one it gets it.
   */
  lemma CarriedIsReceived(w: string, text: string, properties: Table, r: Session, wait: Wait, t: Session)
    requires Parse(w).Parsed? && Carries(Parse(w).frame, text, properties) && PlainText(text)
    requires Receives(r, wait, t) && !wait.NoWait? && r.inbound + ArrivedIn(wait) == w
    requires r.steady || Undisturbed(Parse(w).frame, wait)
    ensures wait.Reply? ==> wait.frame == Parse(w).frame && t.inbound == Parse(w).rest
    ensures r.steady ==> wait.Reply?
  {
    if wait.Reply? && !r.steady {
      TextIsNotSeverable(text);
      SuccessIsFull(w, wait.delivery);
    }
    assert Parse("").Rejected?;
  }

  /** Properties that a received frame carries are exchange properties of the receiver. */
  lemma CarriedIsKept(r: Session, e: Event, t: Session, properties: Table)
    requires Next(r, e, t) && e.call.Receive? && e.wait.Reply? && HasProperties(e.wait.frame, properties)
    ensures forall k :: k in properties ==> Lookup(t.exchange, k) == Some(properties[k])
  {
    forall k | k in properties ensures Lookup(t.exchange, k) == Some(properties[k]) {
      assert Lookup(e.wait.frame.headers.value, k) == Some(properties[k]);
    }
  }

  /** A receive reported the text, took exactly one frame and took over the properties. */
  ghost predicate Delivered(e: Event, t: Session, text: string, properties: Table, tail: string) {
    && e.code == Succeeded && e.wait.Reply? && t.inbound == tail
    && e.wait.frame.body == Some(text + "\0") && e.wait.frame.bodyLength == |text| + 1
    && forall k :: k in properties ==> Lookup(t.exchange, k) == Some(properties[k])
  }

  lemma MessageIsDelivered(w: string, text: string, properties: Table, r: Session, e: Event, t: Session)
    requires Parse(w).Parsed? && Carries(Parse(w).frame, text, properties) && PlainText(text)
    requires Parse(w).frame.command == "MESSAGE"
    requires Next(r, e, t) && e.call.Receive? && r.inbound + ArrivedIn(e.wait) == w
    requires r.steady || Undisturbed(Parse(w).frame, e.wait)
    ensures r.steady ==> e.wait.Reply?
    ensures e.wait.Reply? ==> Delivered(e, t, text, properties, Parse(w).rest)
  {
    CarriedIsReceived(w, text, properties, r, e.wait, t);
    if e.wait.Reply? {
      CarriedIsKept(r, e, t, properties);
    }
  }

  /**
   End to end. A broker that reads the sender's wire gets one frame, and sends a MESSAGE
   with that body in bytes `w` of its own, whatever their header order and count. Whatever
   the receiver's socket does, a receive that reports a frame has the sender's text with
   its NUL and its size, and every property of the sender that neither the library nor the
   broker changes; over a steady socket it does report it.
   */
  lemma MessageEndToEnd(s: Session, e1: Event, s': Session, text: string,
                        w: string, changed: set<string>, r: Session, e2: Event, r': Session)
    requires Next(s, e1, s') && e1.call.Send? && e1.complete && PlainSession(s.path, s.exchange) && PlainText(text)
    requires e1.call.body.Some? && text + "\0" <= e1.call.body.value && e1.call.size == |text| + 1
    requires Parse(w).Parsed? && e1.frame.Some? && Relays(ReadBack(e1.frame.value), Parse(w).frame, changed)
    requires Next(r, e2, r') && e2.call.Receive? && r.inbound + ArrivedIn(e2.wait) == w
    requires r.steady || Undisturbed(Parse(w).frame, e2.wait)
    ensures Parse(e1.written) == Parsed(ReadBack(e1.frame.value), "")
    ensures r.steady ==> e2.wait.Reply?
    ensures e2.wait.Reply? ==> Delivered(e2, r', text, Free(s.exchange) - changed, Parse(w).rest)
  {
    SentMessageReadsBack(s, e1, s', text);
    RelayCarries(ReadBack(e1.frame.value), Parse(w).frame, changed, text, Free(s.exchange));
    MessageIsDelivered(w, text, Free(s.exchange) - changed, r, e2, r');
  }

  /** From every session with empty input, a receive can be delivered any frame. */
  lemma DeliveryHappens(w: string, r: Session) returns (e: Event, t: Session)
    requires Parse(w).Parsed? && Parse(w).frame.command == "MESSAGE" && r.path != "" && r.inbound == ""
    ensures Next(r, e, t) && e.call.Receive? && e.wait == Reply(w, Full(w), Parse(w).frame)
  {
    var Parsed(f, rest) := Parse(w);
    ExactlyConsumed(w);
    var c := w[..Used(w)];
    assert w == c + rest;
    FrameIsReceived(r, w, c, f, rest);
    var m := r.(received := r.received + c, inbound := rest);
    e := Event(Receive, None, [], "", true, Reply(w, Full(w), f), Succeeded);
    t := m.(exchange := ExchangeAfter(r.exchange, e));
    ReceiveIsNext(r, e, m, t);
  }

  // ----- The same with the objects of an application -----

  /** A message that holds a text can be sent as that text. */
  lemma HeldTextIsPlainText(message: Message, text: string)
    requires message.Holds(text) && PlainText(text)
    ensures message.Bytes().Some? && text + "\0" <= message.Bytes().value && message.size == |text| + 1
    ensures AddressableBody(message.Bytes(), message.size)
  {
    var b := message.body[..];
    assert b == text + Zeros(message.body.Length - |text|);
    assert b[|text|] == '\0';
  }

  /** Formatting a message and sending it, as the example client does. */
  method FormatAndSend(messenger: Messenger, header: Option<TransactionHeader>, message: Message,
                       data: string, len: nat)
    returns (code: StatusCode, ghost e: Event)
    requires len <= |data| || '\0' in data
    requires len < INT_MAX && PlainSession(messenger.path, messenger.exchange.hash)
    modifies message, messenger`status, messenger.connection
    ensures Next(old(messenger.Abs()), e, messenger.Abs()) && e.call.Send? && code == e.code
    ensures message.Holds(TextWithin(data, len)) && PlainText(TextWithin(data, len))
    ensures e.complete ==>
              && Parse(e.written).Parsed? && Parse(e.written).rest == ""
              && Carries(Parse(e.written).frame, TextWithin(data, len), Free(old(messenger.exchange.hash)))
  {
    ghost var s := messenger.Abs();
    message.Format(data, len);
    HeldTextIsPlainText(message, TextWithin(data, len));
    code, e := messenger.Send(header, message);
    if e.complete {
      SentMessageReadsBack(s, e, messenger.Abs(), TextWithin(data, len));
    }
  }

  /** Receiving what a peer sent leaves the text in the message and the properties in the exchange. */
  method ReceiveText(messenger: Messenger, message: Message, ghost text: string, ghost properties: Table)
    returns (code: StatusCode, ghost e: Event)
    requires messenger.path != ""
    modifies messenger`status, messenger.exchange, message
    modifies messenger.connection`inbound, messenger.connection`received, messenger.connection`log
    ensures Next(old(messenger.Abs()), e, messenger.Abs()) && e.call == Call.Receive && code == e.code
    ensures var w := old(messenger.connection.inbound) + ArrivedIn(e.wait);
            && Parse(w).Parsed? && Parse(w).frame.command == "MESSAGE"
            && Carries(Parse(w).frame, text, properties) && PlainText(text)
            && (messenger.connection.steady || Undisturbed(Parse(w).frame, e.wait)) && e.wait.Reply? ==>
              && code == Succeeded && message.Holds(text) && messenger.connection.inbound == Parse(w).rest
              && forall k :: k in properties ==> messenger.exchange.Get(k) == Some(properties[k])
  {
    ghost var s := messenger.Abs();
    code, e := messenger.Receive(message);
    ghost var w := s.inbound + ArrivedIn(e.wait);
    if && Parse(w).Parsed? && Parse(w).frame.command == "MESSAGE"
       && Carries(Parse(w).frame, text, properties) && PlainText(text)
       && (s.steady || Undisturbed(Parse(w).frame, e.wait)) && e.wait.Reply? {
      MessageIsDelivered(w, text, properties, s, e, messenger.Abs());
      CTextTerminated(text, "");
      assert text + "\0" + "" == text + "\0";
    }
  }
}
