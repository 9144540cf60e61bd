/**
 A messenger against a FIFO broker that reads the client's bytes. No call compares receipt
 ids; a call gets its own RECEIPT all the same if and only if the header block on the wire
 asks for exactly what the call waits for, and nothing else arrives during its wait.
 */
module Broker {
  import opened CValues
  import opened Frames
  import opened Wire
  import opened RoundTrip
  import opened Reading
  import opened Protocol
  import opened Runs

  // ----- The broker -----

  /** What a broker still has to answer. */
  datatype Owed = OwesConnected | OwesReceipt(id: string)

  /** What a broker owes for a frame: CONNECTED for CONNECT, RECEIPT for a receipt header. */
  function DuesFor(command: string, table: Table): seq<Owed> {
    if command == "CONNECT" then [OwesConnected]
    else if "receipt" in table then [OwesReceipt(table["receipt"])]
    else []
  }

  /** What it owes for the bytes of a frame, as far as it can read their command and headers. */
  function Dues(wire: string): seq<Owed> {
    match TakeLine(wire)
    case Line(command, block) =>
      (match TakeHeaders(block, map[])
       case Headers(table, _) => DuesFor(command, table)
       case BadHeaders(_, _) => [])
    case _ => []
  }

  /** What a call makes the broker owe, by the bytes that it wrote. */
  function DuesOf(e: Event): seq<Owed> {
    if e.complete then Dues(e.written) else []
  }

  /** The bytes are one frame and nothing else. */
  predicate Whole(text: string) {
    Parse(text).Parsed? && Parse(text).rest == "" && Parse(text).frame.headers.Some?
  }

  /** The frame answers what is owed. */
  predicate AnswerTo(f: Frame, owed: Owed) {
    match owed
    case OwesConnected => f.command == "CONNECTED"
    case OwesReceipt(id) =>
      f.command == "RECEIPT" && f.headers.Some? && Lookup(f.headers.value, "receipt-id") == Some(id)
  }

  /** The bytes are an answer to what is owed, in whatever way it is encoded. */
  predicate Answers(text: string, owed: Owed) {
    Whole(text) && AnswerTo(Parse(text).frame, owed)
  }

  predicate IsMessage(text: string) {
    Whole(text) && Parse(text).frame.command == "MESSAGE"
  }

  /** What the broker sends while a call waits: its answers, with messages before and after. */
  datatype Service = Service(early: seq<string>, answers: seq<string>, late: seq<string>)

  function Texts(b: Service): seq<string> {
    b.early + b.answers + b.late
  }

  function Flat(texts: seq<string>): string {
    if texts == [] then "" else texts[0] + Flat(texts[1..])
  }

  ghost predicate Serviceable(b: Service, due: seq<Owed>) {
    && |b.answers| == |due|
    && (forall i :: 0 <= i < |due| ==> Answers(b.answers[i], due[i]))
    && (forall i :: 0 <= i < |b.early| ==> IsMessage(b.early[i]))
    && (forall i :: 0 <= i < |b.late| ==> IsMessage(b.late[i]))
  }

  /** The broker's part in a step: it queues what it owes and serves the queue when the client waits. */
  ghost predicate Serves(e: Event, owed: seq<Owed>, b: Service, owed': seq<Owed>) {
    var due := owed + DuesOf(e);
    if e.wait.NoWait? then owed' == due && Texts(b) == []
    else owed' == [] && Serviceable(b, due) && ArrivedIn(e.wait) == Flat(Texts(b))
  }

  // ----- Being in step -----

  /** Nothing unread, nothing owed. */
  predicate InStep(s: Session, owed: seq<Owed>) {
    s.inbound == "" && owed == []
  }

  /** A call that an application may make: it has its mandatory header. */
  predicate Proper(call: Call) {
    !(call.Subscribe? && call.subscription.None?)
  }

  /** What a call waits for. */
  function Expects(call: Call): seq<Owed> {
    if call.Connect? then [OwesConnected]
    else if ReceiptOf(call) > 0 then [OwesReceipt(Itoa(AsInt(ReceiptOf(call))))]
    else []
  }

  /** The call got the frame that it waits for, or for a receive the first one that came. */
  ghost predicate Served(e: Event, b: Service) {
    if e.call.Receive? then
      Texts(b) != [] ==>
        e.code == Succeeded && e.wait.Reply? && Whole(Texts(b)[0]) && e.wait.frame == Parse(Texts(b)[0]).frame
    else if Awaits(e.call) then
      e.code == Succeeded && e.wait.Reply? && |Expects(e.call)| == 1 && AnswerTo(e.wait.frame, Expects(e.call)[0])
    else e.code == Succeeded && e.wait.NoWait?
  }

  /** No message comes uncalled for: none while a call awaits an answer, at most one for a receive. */
  predicate Quiet(e: Event, b: Service) {
    |b.early| + |b.late| <= if e.call.Receive? then 1 else 0
  }

  // ----- What a wait makes of what arrives -----

  lemma NothingArrives(s: Session, wait: Wait, t: Session)
    requires Receives(s, wait, t) && s.inbound == "" && ArrivedIn(wait) == ""
    ensures t.inbound == "" && !wait.Reply?
  {
    assert forall d :: ParseUnder("", d).Rejected?;
    assert s.inbound + "" == "";
  }

  /** A wait over a steady socket takes the first of the frames that arrive and leaves the others. */
  lemma FirstTextIsRead(s: Session, wait: Wait, t: Session, texts: seq<string>)
    requires Receives(s, wait, t) && !wait.NoWait? && s.steady && s.inbound == ""
    requires texts != [] && Whole(texts[0]) && ArrivedIn(wait) == Flat(texts)
    ensures wait.Reply? && wait.frame == Parse(texts[0]).frame && t.inbound == Flat(texts[1..])
  {
    var first, others := texts[0], Flat(texts[1..]);
    PrefixStable(first, others);
    assert s.inbound + ArrivedIn(wait) == first + others;
    assert "" + others == others;
    assert Parse("").Rejected?;
  }

  lemma FlatIsNotEmpty(texts: seq<string>)
    requires texts != [] && Whole(texts[0])
    ensures Flat(texts) != ""
  {
    assert Parse("").Rejected?;
  }

  /** Every text of a service is a frame, and what the first one is depends on what comes early. */
  lemma FirstTextOf(b: Service, due: seq<Owed>)
    requires Serviceable(b, due) && Texts(b) != []
    ensures forall i :: 0 <= i < |Texts(b)| ==> Whole(Texts(b)[i])
    ensures var first := Texts(b)[0];
            if b.early != [] then IsMessage(first)
            else if due != [] then first == b.answers[0] && Answers(first, due[0])
            else IsMessage(first)
  {
  }

  /** A frame is what the call waits for exactly when it answers a debt that the call expects. */
  lemma AnswerIsExpected(call: Call, f: Frame, owed: Owed)
    requires Expects(call) != [] && AnswerTo(f, owed)
    ensures AnswerTo(f, Expects(call)[0]) <==> Expects(call) == [owed]
  {
  }

  lemma MessageIsNoAnswer(call: Call, f: Frame)
    requires Expects(call) != [] && f.command == "MESSAGE"
    ensures !AnswerTo(f, Expects(call)[0]) && !(Expected(call) <= f.command)
  {
  }

  lemma ExpectsWhenAwaits(call: Call)
    requires !call.Receive?
    ensures Expects(call) != [] <==> Awaits(call)
    ensures Expects(call) != [] ==> |Expects(call)| == 1
  {
  }

  /** A call succeeds with any answer of the kind that it waits for. */
  lemma AnswerSucceeds(e: Event, owed: Owed)
    requires e.code == CodeOf(e) && e.complete && e.wait.Reply? && Proper(e.call) && !e.call.Receive?
    requires AnswerTo(e.wait.frame, owed) && (owed.OwesConnected? <==> e.call.Connect?)
    ensures e.code == Succeeded
  {
  }

  // ----- One step -----

  lemma FirstDecides(e: Event, b: Service)
    requires e.code == CodeOf(e) && e.complete && Proper(e.call) && !e.call.Receive? && Awaits(e.call)
    requires Serviceable(b, DuesOf(e)) && |DuesOf(e)| <= 1 && Texts(b) != []
    requires e.wait.Reply? && e.wait.frame == Parse(Texts(b)[0]).frame
    ensures Served(e, b) <==> b.early == [] && DuesOf(e) == Expects(e.call)
  {
    ExpectsWhenAwaits(e.call);
    FirstTextOf(b, DuesOf(e));
    if b.early == [] && DuesOf(e) != [] {
      AnswerIsExpected(e.call, e.wait.frame, DuesOf(e)[0]);
      if Expects(e.call) == DuesOf(e) {
        AnswerSucceeds(e, DuesOf(e)[0]);
      }
      assert DuesOf(e) == [DuesOf(e)[0]];
    } else {
      MessageIsNoAnswer(e.call, e.wait.frame);
    }
  }

  /** A call that waits for an answer is served exactly when the first text is that answer. */
  lemma AwaitingIsServed(s: Session, e: Event, m: Session, b: Service)
    requires e.code == CodeOf(e) && e.complete && Proper(e.call) && !e.call.Receive? && Awaits(e.call)
    requires Receives(s, e.wait, m) && !e.wait.NoWait? && s.steady && s.inbound == ""
    requires Serviceable(b, DuesOf(e)) && ArrivedIn(e.wait) == Flat(Texts(b)) && |DuesOf(e)| <= 1
    ensures Served(e, b) <==> b.early == [] && DuesOf(e) == Expects(e.call)
    ensures m.inbound == "" <==> |Texts(b)| <= 1
  {
    ExpectsWhenAwaits(e.call);
    var texts := Texts(b);
    if texts == [] {
      NothingArrives(s, e.wait, m);
    } else {
      FirstTextOf(b, DuesOf(e));
      FirstTextIsRead(s, e.wait, m, texts);
      FirstDecides(e, b);
      if |texts| > 1 {
        FlatIsNotEmpty(texts[1..]);
      }
    }
  }

  lemma AtMostOneDue(wire: string)
    ensures |Dues(wire)| <= 1
  {
  }

  lemma WritingStaysInStep(s: Session, e: Event, t: Session, b: Service, owed': seq<Owed>)
    requires Next(s, e, t) && Serves(e, [], b, owed') && s.steady && Proper(e.call) && s.inbound == ""
    requires e.frame.Some?
    ensures InStep(t, owed') && Served(e, b) <==> DuesOf(e) == Expects(e.call) && Quiet(e, b)
    ensures Awaits(e.call) && DuesOf(e) == Expects(e.call) ==> (Served(e, b) <==> b.early == [])
  {
    ExpectsWhenAwaits(e.call);
    assert [] + DuesOf(e) == DuesOf(e);
    AtMostOneDue(e.written);
    if Awaits(e.call) {
      AwaitingIsServed(s, e, t, b);
    }
  }

  lemma ReceivingStaysInStep(s: Session, e: Event, t: Session, b: Service, owed': seq<Owed>)
    requires Next(s, e, t) && Serves(e, [], b, owed') && s.steady && s.inbound == ""
    requires e.call.Receive?
    ensures Served(e, b) && owed' == [] && DuesOf(e) == [] && (t.inbound == "" <==> Quiet(e, b))
  {
    assert [] + DuesOf(e) == [];
    var texts := Texts(b);
    if texts == [] {
      NothingArrives(s, e.wait, t);
    } else {
      FirstTextOf(b, []);
      FirstTextIsRead(s, e.wait, t, texts);
      if |texts| > 1 {
        FlatIsNotEmpty(texts[1..]);
      }
    }
  }

  /**
   One step, exactly. A call from a session in step gets what it waits for and leaves
   client and broker in step if and only if the bytes that it wrote ask for exactly that
   and no message comes uncalled for. A call whose bytes ask for what it waits for gets
   it if and only if no message comes before the answer.
   */
  lemma StaysInStep(s: Session, e: Event, t: Session, owed: seq<Owed>, b: Service, owed': seq<Owed>)
    requires Next(s, e, t) && Serves(e, owed, b, owed') && s.steady && Proper(e.call) && InStep(s, owed)
    ensures InStep(t, owed') && Served(e, b) <==> DuesOf(e) == Expects(e.call) && Quiet(e, b)
    ensures e.frame.Some? && Awaits(e.call) && DuesOf(e) == Expects(e.call) ==> (Served(e, b) <==> b.early == [])
  {
    if e.frame.Some? {
      WritingStaysInStep(s, e, t, b, owed');
    } else if e.call.Receive? {
      ReceivingStaysInStep(s, e, t, b, owed');
    } else {
      assert owed + DuesOf(e) == [];
    }
  }

  lemma EarlyTexts(b: Service, due: seq<Owed>)
    requires Serviceable(b, due) && b.early != []
    ensures Texts(b) != [] && Texts(b)[0] == b.early[0] && IsMessage(b.early[0])
    ensures Texts(b)[1..] == b.early[1..] + b.answers + b.late
  {
  }

  /** A message that comes before an awaited answer is consumed and dropped, and the call fails. */
  lemma EarlyMessageIsLost(s: Session, e: Event, t: Session, b: Service, owed': seq<Owed>)
    requires Next(s, e, t) && Serves(e, [], b, owed') && s.steady && Proper(e.call) && s.inbound == ""
    requires e.frame.Some? && Awaits(e.call) && b.early != []
    ensures e.code == Failed && e.wait.Reply? && IsMessage(b.early[0]) && e.wait.frame == Parse(b.early[0]).frame
    ensures t.exchange == s.exchange && t.inbound == Flat(b.early[1..] + b.answers + b.late)
  {
    ExpectsWhenAwaits(e.call);
    EarlyTexts(b, [] + DuesOf(e));
    FirstTextIsRead(s, e.wait, t, Texts(b));
    MessageIsNoAnswer(e.call, e.wait.frame);
  }

  // ----- Plain sessions -----

  /** A SEND that asks for no receipt while "receipt" is an exchange property. */
  predicate Leaks(exchange: Table, call: Call) {
    call.Send? && !Awaits(call) && "receipt" in exchange
  }

  lemma NotConnect(call: Call)
    requires !call.Connect?
    ensures CommandOf(call) != "CONNECT"
  {
    assert |CommandOf(call)| != 7 && |"CONNECT"| == 7;
  }

  /** What the table of a call's frame would make a broker owe. */
  lemma TableDues(path: string, stripRoot: bool, exchange: Table, call: Call)
    requires path != "" && FrameFor(path, stripRoot, exchange, call).Some?
    ensures var f := FrameFor(path, stripRoot, exchange, call).value;
            f.headers.Some? &&
            DuesFor(f.command, f.headers.value) ==
            if Leaks(exchange, call) then [OwesReceipt(exchange["receipt"])] else Expects(call)
  {
    if !call.Connect? {
      ReceiptAccounting(path, stripRoot, exchange, call);
      NotConnect(call);
    }
  }

  /** The bytes of a well-formed frame ask for what its table asks for, in every order. */
  lemma WireDues(f: Frame, entries: seq<Entry>)
    requires WellFormed(f) && Order(f, entries) && f.headers.Some?
    ensures Dues(Encode(f, entries)) == DuesFor(f.command, f.headers.value)
  {
    EncodedHead(f, entries);
    assert |CONTENT_LENGTH| != |"receipt"|;
  }

  /**
   In a plain session the condition is the guard of one branch: the wire asks for what
   the call waits for, unless the call leaks the "receipt" property.
   */
  lemma DuesWhenPlain(s: Session, e: Event, t: Session)
    requires Next(s, e, t) && e.complete && PlainSession(s.path, s.exchange) && PlainCall(e.call)
    ensures DuesOf(e) == if Leaks(s.exchange, e.call) then [OwesReceipt(s.exchange["receipt"])] else Expects(e.call)
    ensures Leaks(s.exchange, e.call) ==> DuesOf(e) != Expects(e.call)
  {
    if e.frame.Some? {
      CallsWriteWellFormedFrames(s.path, s.stripRoot, s.exchange, e.call);
      TableDues(s.path, s.stripRoot, s.exchange, e.call);
      WireDues(e.frame.value, e.entries);
    }
  }

  /** One step of a plain session: in step and served exactly without a leak and without messages uncalled for. */
  lemma PlainStaysInStep(s: Session, e: Event, t: Session, owed: seq<Owed>, b: Service, owed': seq<Owed>)
    requires Next(s, e, t) && Serves(e, owed, b, owed') && s.steady && Proper(e.call) && InStep(s, owed)
    requires PlainSession(s.path, s.exchange) && PlainCall(e.call)
    ensures InStep(t, owed') && Served(e, b) <==> !Leaks(s.exchange, e.call) && Quiet(e, b)
  {
    StaysInStep(s, e, t, owed, b, owed');
    DuesWhenPlain(s, e, t);
  }
}
