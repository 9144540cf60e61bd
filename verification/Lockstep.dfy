/**
 Whole runs against a FIFO broker: every call gets exactly its own answer as long as no
 "receipt" property can reach the wire, and what happens when one does.
 */
module Lockstep {
  import opened CValues
  import opened Frames
  import opened Wire
  import opened RoundTrip
  import opened Reading
  import opened Protocol
  import opened Runs
  import opened Broker

  predicate CarriesReceipt(text: string)
    requires Whole(text)
  {
    "receipt" in Parse(text).frame.headers.value
  }

  /** No message of the service carries a receipt header. */
  ghost predicate NoReceiptInMessages(b: Service) {
    && (forall i :: 0 <= i < |b.early| ==> IsMessage(b.early[i]) ==> !CarriesReceipt(b.early[i]))
    && (forall i :: 0 <= i < |b.late| ==> IsMessage(b.late[i]) ==> !CarriesReceipt(b.late[i]))
  }

  /** What an application does to stay in step: plain values, and no "receipt" property. */
  predicate Careful(call: Call) {
    Proper(call) && PlainCall(call) && !(call.Add? && call.name == "receipt")
  }

  /** One step of a run against a broker that sends messages only to a receive. */
  ghost predicate BrokeredStep(s: Session, e: Event, t: Session, owed: seq<Owed>, b: Service, owed': seq<Owed>) {
    Next(s, e, t) && Serves(e, owed, b, owed') && Careful(e.call) && Quiet(e, b) && NoReceiptInMessages(b)
  }

  /** In step, over a steady socket, with plain values and nothing to leak. */
  ghost predicate InSync(s: Session, owed: seq<Owed>) {
    InStep(s, owed) && s.steady && PlainSession(s.path, s.exchange) && "receipt" !in s.exchange
  }

  /** A run against a broker that starts in sync; the other conditions are on single calls. */
  ghost predicate BrokeredRun(ss: seq<Session>, es: seq<Event>, owed: seq<seq<Owed>>, bs: seq<Service>) {
    && |owed| == |ss| == |es| + 1 && |bs| == |es| && InSync(ss[0], owed[0])
    && (forall i :: 0 <= i < |es| ==> BrokeredStep(ss[i], es[i], ss[i + 1], owed[i], bs[i], owed[i + 1]))
  }

  /** A message without a receipt header brings no "receipt" property. */
  lemma ReceiptStaysOut(s: Session, e: Event, t: Session, owed: seq<Owed>, b: Service, owed': seq<Owed>)
    requires BrokeredStep(s, e, t, owed, b, owed') && InSync(s, owed)
    ensures "receipt" !in t.exchange
  {
    if e.call.Receive? {
      ReceivingStaysInStep(s, e, t, b, owed');
      if Texts(b) == [] {
        NothingArrives(s, e.wait, t);
      } else {
        FirstTextOf(b, owed + DuesOf(e));
      }
    }
  }

  lemma BrokeredStepKeepsSync(s: Session, e: Event, t: Session, owed: seq<Owed>, b: Service, owed': seq<Owed>)
    requires BrokeredStep(s, e, t, owed, b, owed') && InSync(s, owed)
    ensures InSync(t, owed') && Served(e, b)
  {
    PlainStaysInStep(s, e, t, owed, b, owed');
    NextKeepsPlain(s, e, t);
    ReceiptStaysOut(s, e, t, owed, b, owed');
  }

  lemma BrokeredRunIsInSync(ss: seq<Session>, es: seq<Event>, owed: seq<seq<Owed>>, bs: seq<Service>, k: nat)
    requires BrokeredRun(ss, es, owed, bs) && k <= |es|
    ensures InSync(ss[k], owed[k])
  {
    var i := 0;
    while i < k
      invariant i <= k && InSync(ss[i], owed[i])
    {
      BrokeredStepKeepsSync(ss[i], es[i], ss[i + 1], owed[i], bs[i], owed[i + 1]);
      i := i + 1;
    }
  }

  /**
   Lockstep over whole runs: against a FIFO broker that reads the wire, in every run that
   starts plain and without a "receipt" property, and whose calls keep to that, input and
   debts are empty before and after every call, and every call gets exactly the frame
   that it asked for, its own RECEIPT included.
   */
  lemma Lockstep(ss: seq<Session>, es: seq<Event>, owed: seq<seq<Owed>>, bs: seq<Service>, k: nat)
    requires BrokeredRun(ss, es, owed, bs) && k < |es|
    ensures InStep(ss[k], owed[k]) && Served(es[k], bs[k]) && InStep(ss[k + 1], owed[k + 1])
  {
    BrokeredRunIsInSync(ss, es, owed, bs, k);
    BrokeredStepKeepsSync(ss[k], es[k], ss[k + 1], owed[k], bs[k], owed[k + 1]);
  }

  /** The frame on the wire asks for an answer. */
  predicate AsksOnWire(e: Event) {
    DuesOf(e) != []
  }

  lemma SuccessfulStepAccounts(s: Session, e: Event, t: Session)
    requires Next(s, e, t) && PlainSession(s.path, s.exchange) && PlainCall(e.call) && "receipt" !in s.exchange
    requires e.call.Receive? || e.code == Succeeded
    ensures e.wait.Reply? <==> AsksOnWire(e) || (e.call.Receive? && e.wait.Reply?)
    ensures e.call.Receive? ==> !AsksOnWire(e)
  {
    if e.complete {
      DuesWhenPlain(s, e, t);
    }
  }

  /**
   Accounting on the wire: in a plain run without failures and without a "receipt"
   property, the calls consume one frame for each written frame that asks for an answer
   and one for each frame received.
   */
  lemma {:induction false} WireAccounting(ss: seq<Session>, es: seq<Event>)
    requires Run(ss, es) && PlainSession(ss[0].path, ss[0].exchange)
    requires forall i :: 0 <= i < |es| ==> PlainCall(es[i].call) && "receipt" !in ss[i].exchange
    requires forall i :: 0 <= i < |es| ==> es[i].call.Receive? || es[i].code == Succeeded
    ensures Count(es, (e: Event) => e.wait.Reply?)
         == Count(es, AsksOnWire) + Count(es, (e: Event) => e.call.Receive? && e.wait.Reply?)
  {
    if es == [] {
    } else {
      var n := |es| - 1;
      RunFront(ss, es);
      WireAccounting(ss[..|es|], es[..n]);
      RunStaysPlain(ss, es, n);
      SuccessfulStepAccounts(ss[n], es[n], ss[n + 1]);
    }
  }

  // ----- When a receipt header leaks -----

  /** Two answers are owed when a call asks for a receipt after a leak. */
  lemma TwoAnswersOwed(s: Session, e: Event, t: Session, id: string, b: Service, owed: seq<Owed>)
    requires s.steady && PlainSession(s.path, s.exchange) && PlainCall(e.call)
    requires Next(s, e, t) && Serves(e, [OwesReceipt(id)], b, owed) && e.frame.Some? && ReceiptOf(e.call) > 0
    ensures Serviceable(b, [OwesReceipt(id), Expects(e.call)[0]])
    ensures !e.wait.NoWait? && ArrivedIn(e.wait) == Flat(Texts(b))
  {
    DuesWhenPlain(s, e, t);
    assert [OwesReceipt(id)] + DuesOf(e) == [OwesReceipt(id), Expects(e.call)[0]];
  }

  lemma TextsWithoutEarly(b: Service)
    requires |b.answers| == 2 && b.early == []
    ensures Texts(b) != [] && Texts(b)[0] == b.answers[0] && Texts(b)[1..] == [b.answers[1]] + b.late
  {
    assert b.answers == [b.answers[0], b.answers[1]];
  }

  lemma ServedInOrder(b: Service, first: Owed, second: Owed)
    requires Serviceable(b, [first, second])
    ensures |b.answers| == 2 && Answers(b.answers[0], first) && Answers(b.answers[1], second)
  {
    var due := [first, second];
    assert Answers(b.answers[0], due[0]) && Answers(b.answers[1], due[1]);
  }

  /** A reply to somebody else's receipt: the call believes it, and its own reply is left. */
  ghost predicate Misled(e: Event, t: Session, id: string, b: Service) {
    && e.code == Succeeded && e.wait.Reply? && AnswerTo(e.wait.frame, OwesReceipt(id))
    && Expects(e.call) != [] && |b.answers| == 2 && Answers(b.answers[1], Expects(e.call)[0])
    && t.inbound == Flat([b.answers[1]] + b.late)
  }

  /** With one leaked receipt owed, the next call that asks for one gets the leaked one. */
  lemma LeakedReceiptIsConsumed(s: Session, id: string, e: Event, t: Session, b: Service, owed: seq<Owed>)
    requires s.steady && s.inbound == "" && PlainSession(s.path, s.exchange) && PlainCall(e.call)
    requires Next(s, e, t) && Serves(e, [OwesReceipt(id)], b, owed) && e.frame.Some? && ReceiptOf(e.call) > 0
    requires b.early == []
    ensures Misled(e, t, id, b)
  {
    TwoAnswersOwed(s, e, t, id, b, owed);
    ServedInOrder(b, OwesReceipt(id), Expects(e.call)[0]);
    TextsWithoutEarly(b);
    FirstTextIsRead(s, e.wait, t, Texts(b));
    AnswerSucceeds(e, OwesReceipt(id));
  }

  /**
   Every leak misleads: after any SEND without receipt from a plain session that has a
   "receipt" property, the next call that asks for a receipt succeeds with the RECEIPT
   for the property's value and leaves its own RECEIPT unread.
   */
  lemma EveryLeakMisleads(s: Session, e1: Event, m: Session, b1: Service, owed1: seq<Owed>,
                          e2: Event, t: Session, b2: Service, owed2: seq<Owed>)
    requires s.steady && s.inbound == "" && PlainSession(s.path, s.exchange) && Leaks(s.exchange, e1.call)
    requires Next(s, e1, m) && Serves(e1, [], b1, owed1)
    requires Next(m, e2, t) && Serves(e2, owed1, b2, owed2) && e2.frame.Some? && ReceiptOf(e2.call) > 0
    requires PlainCall(e2.call) && b2.early == []
    ensures Misled(e2, t, s.exchange["receipt"], b2)
  {
    DuesWhenPlain(s, e1, m);
    assert [] + DuesOf(e1) == [OwesReceipt(s.exchange["receipt"])];
    LeakedReceiptIsConsumed(m, s.exchange["receipt"], e2, t, b2, owed2);
  }

  // ----- Such runs exist -----

  /** A RECEIPT as brokers send it: no content-length, an empty body, NUL LF. */
  function ReceiptText(id: string): string {
    "RECEIPT" + "\n" + ("receipt-id:" + id + "\n" + ("" + "\n" + "\0\n"))
  }

  lemma ReceiptHeaders(id: string)
    requires PlainValue(id)
    ensures TakeHeaders("receipt-id:" + id + "\n" + ("" + "\n" + TERMINATOR), map[])
         == Headers(map["receipt-id" := id], TERMINATOR)
  {
    var line := "receipt-id:" + id;
    FirstColon(line, 10);
    assert line[..10] == "receipt-id" && line[11..] == id;
    TakeHeadersLine("", TERMINATOR, map["receipt-id" := id]);
    TakeHeadersLine(line, "" + "\n" + TERMINATOR, map[]);
  }

  lemma ReceiptTextAnswers(id: string)
    requires PlainValue(id)
    ensures Answers(ReceiptText(id), OwesReceipt(id))
  {
    ReceiptHeaders(id);
    WholeLine("RECEIPT", "receipt-id:" + id + "\n" + ("" + "\n" + TERMINATOR));
    assert TERMINATOR[2..] == "";
  }

  /** A DISCONNECT that asks for a receipt can be written and then wait as given. */
  lemma DisconnectHappens(m: Session, r: Receipt, wait: Wait, received: string, left: string)
    returns (e: Event, t: Session)
    requires PlainSession(m.path, m.exchange) && r > 0
    requires Receives(m, wait, m.(inbound := left, received := received))
    requires wait.Reply? && wait.frame.command == "RECEIPT"
    ensures Next(m, e, t) && e.call == Disconnect(Some(r)) && e.complete && e.wait == wait && e.code == Succeeded
    ensures t == m.(sent := t.sent, inbound := left, received := received) && DuesOf(e) == Expects(e.call)
  {
    var f := FrameFor(m.path, m.stripRoot, m.exchange, Disconnect(Some(r))).value;
    var entries := EnumerationExists(f.headers.value);
    e := Event(Disconnect(Some(r)), Some(f), entries, Encode(f, entries), true, wait, Succeeded);
    var w := m.(sent := m.sent + Encode(f, entries));
    t := w.(inbound := left, received := received);
    WriteIsNext(m, e, w, t);
    DuesWhenPlain(m, e, t);
  }

  /** Frames that arrive during a wait: the first is read. */
  lemma FirstArrivalIsReceived(m: Session, first: string, others: string)
    requires m.inbound == "" && Parse(first).Parsed? && Parse(first).rest == ""
    ensures Receives(m, Reply(first + others, Full(first + others), Parse(first).frame),
                     m.(inbound := others, received := m.received + first))
  {
    PrefixStable(first, others);
    assert "" + others == others;
    FrameIsReceived(m, first + others, first, Parse(first).frame, others);
  }

  lemma FlatTwo(first: string, second: string)
    ensures Flat([first, second]) == first + second && Flat([first]) == first + ""
  {
    assert [first, second][1..] == [second] && [second][1..] == [];
    assert Flat([second]) == second + "" == second;
  }

  lemma DisconnectIsServed(e: Event, r: Receipt, owed: seq<Owed>, b: Service)
    requires e.call == Disconnect(Some(r)) && r > 0 && DuesOf(e) == Expects(e.call)
    requires Serviceable(b, owed + [OwesReceipt(Itoa(AsInt(r)))])
    requires e.wait.Reply? && e.wait.arrived == Flat(Texts(b))
    ensures Serves(e, owed, b, [])
  {
  }

  lemma OneAnswerServes(own: string, one: Owed)
    requires Answers(own, one)
    ensures Serviceable(Service([], [own], []), [] + [one]) && Flat(Texts(Service([], [own], []))) == own + ""
  {
    assert [] + [own] + [] == [own];
    FlatTwo(own, own);
  }

  /** From every session in sync, a DISCONNECT can get any RECEIPT that answers it and stay in step. */
  lemma OwnReceiptHappens(s: Session, r: Receipt, own: string) returns (e: Event, t: Session, b: Service)
    requires InSync(s, []) && r > 0 && Answers(own, OwesReceipt(Itoa(AsInt(r))))
    ensures Next(s, e, t) && Serves(e, [], b, []) && e.call == Disconnect(Some(r)) && Quiet(e, b)
    ensures t.inbound == ""
  {
    FirstArrivalIsReceived(s, own, "");
    e, t := DisconnectHappens(s, r, Reply(own + "", Full(own + ""), Parse(own).frame), s.received + own, "");
    b := Service([], [own], []);
    OneAnswerServes(own, OwesReceipt(Itoa(AsInt(r))));
    DisconnectIsServed(e, r, [], b);
  }

  /** A SEND without receipt can always be made, and leaves the broker owing the leaked receipt. */
  lemma LeakHappens(s: Session, body: Option<string>, size: nat) returns (e: Event, t: Session)
    requires PlainSession(s.path, s.exchange) && s.inbound == "" && "receipt" in s.exchange
    ensures Next(s, e, t) && Serves(e, [], Service([], [], []), [OwesReceipt(s.exchange["receipt"])])
    ensures t == s.(sent := t.sent) && e.call == Send(None, body, size)
  {
    var call := Send(None, body, size);
    var f := FrameFor(s.path, s.stripRoot, s.exchange, call).value;
    var entries := EnumerationExists(f.headers.value);
    e := Event(call, Some(f), entries, Encode(f, entries), true, NoWait, Succeeded);
    t := s.(sent := s.sent + Encode(f, entries));
    WriteIsNext(s, e, t, t);
    DuesWhenPlain(s, e, t);
  }

  lemma TwoAnswersServe(first: string, second: string, one: Owed, two: Owed)
    requires Answers(first, one) && Answers(second, two)
    ensures var b := Service([], [first, second], []);
            Serviceable(b, [one] + [two]) && Flat(Texts(b)) == first + second
  {
    assert [] + [first, second] + [] == [first, second] && [one] + [two] == [one, two];
    FlatTwo(first, second);
  }

  /** A DISCONNECT whose wait brings the RECEIPT for `id` and then its own. */
  lemma WrongReceiptHappens(m: Session, id: string, first: string, r: Receipt, second: string)
    returns (e: Event, t: Session, b: Service)
    requires PlainSession(m.path, m.exchange) && m.inbound == "" && r > 0
    requires Answers(first, OwesReceipt(id)) && Answers(second, OwesReceipt(Itoa(AsInt(r))))
    ensures Next(m, e, t) && Serves(e, [OwesReceipt(id)], b, []) && b.early == []
    ensures e.call == Disconnect(Some(r)) && t.inbound == second
  {
    FirstArrivalIsReceived(m, first, second);
    var wait := Reply(first + second, Full(first + second), Parse(first).frame);
    e, t := DisconnectHappens(m, r, wait, m.received + first, second);
    b := Service([], [first, second], []);
    TwoAnswersServe(first, second, OwesReceipt(id), OwesReceipt(Itoa(AsInt(r))));
    DisconnectIsServed(e, r, [OwesReceipt(id)], b);
  }

  /**
   The desynchronisation is real: from every plain session in step that has a "receipt"
   property, a SEND of any body without receipt and then a DISCONNECT with one can be
   made such that the DISCONNECT believes the RECEIPT for the property's value.
   */
  lemma DesyncHappens(s: Session, body: string, size: nat, r: Receipt)
    returns (e1: Event, m: Session, e2: Event, t: Session, b: Service)
    requires PlainSession(s.path, s.exchange) && s.steady && s.inbound == "" && "receipt" in s.exchange
    requires AddressableBody(Some(body), size) && r > 0
    ensures Next(s, e1, m) && Serves(e1, [], Service([], [], []), [OwesReceipt(s.exchange["receipt"])])
    ensures Next(m, e2, t) && Serves(e2, [OwesReceipt(s.exchange["receipt"])], b, [])
    ensures e1.call == Send(None, Some(body), size) && e2.call == Disconnect(Some(r))
    ensures Misled(e2, t, s.exchange["receipt"], b) && t.inbound == ReceiptText(Itoa(AsInt(r)))
  {
    e1, m := LeakHappens(s, Some(body), size);
    var id, own := s.exchange["receipt"], Itoa(AsInt(r));
    ItoaIsPlain(AsInt(r));
    ReceiptTextAnswers(id);
    ReceiptTextAnswers(own);
    e2, t, b := WrongReceiptHappens(m, id, ReceiptText(id), r, ReceiptText(own));
    LeakedReceiptIsConsumed(m, s.exchange["receipt"], e2, t, b, []);
  }

  // ----- Unescaped values -----

  /** A header value that smuggles a line is printed as two header lines. */
  lemma SmuggledLine(key: string, value: string, key': string, value': string)
    ensures HeaderLine((key, value + "\n" + key' + ":" + value'))
         == HeaderLine((key, value)) + HeaderLine((key', value'))
  {
  }

  /** The headers of a SEND to "q" with one property that smuggles a receipt. */
  function Smuggling(id: string): seq<Entry> {
    [("a", "1" + "\n" + "receipt" + ":" + id), ("destination", "q")]
  }

  lemma SmuggledHeaders(id: string, length: Entry)
    ensures HeaderLines(Smuggling(id) + [length])
         == HeaderLines([("a", "1"), ("receipt", id), ("destination", "q"), length])
  {
    var value := "1" + "\n" + "receipt" + ":" + id;
    var others := [("destination", "q"), length];
    SmuggledLine("a", "1", "receipt", id);
    assert Smuggling(id) + [length] == [("a", value)] + others;
    assert ([("a", value)] + others)[1..] == others;
    var plain := [("a", "1"), ("receipt", id)];
    assert [("a", "1"), ("receipt", id), ("destination", "q"), length] == plain + others;
    assert (plain + others)[1..] == [("receipt", id)] + others;
    assert ([("receipt", id)] + others)[1..] == others;
    Assoc(HeaderLine(("a", "1")), HeaderLine(("receipt", id)), HeaderLines(others));
  }

  lemma StoredReceipt(id: string, length: Entry)
    requires length.0 == CONTENT_LENGTH
    ensures Lookup(Store([("a", "1"), ("receipt", id), ("destination", "q"), length], map[]), "receipt") == Some(id)
  {
    var two := [("a", "1"), ("receipt", id)];
    var three := two + [("destination", "q")];
    StoreKeepsLast(two, "receipt");
    StoreSnoc(two, ("destination", "q"), map[]);
    StoreSnoc(three, length, map[]);
    assert three + [length] == [("a", "1"), ("receipt", id), ("destination", "q"), length];
    assert |CONTENT_LENGTH| != |"receipt"| && |"destination"| != |"receipt"|;
  }

  lemma DuesOfParts(command: string, block: string, table: Table, rest: string)
    requires PlainCommand(command) && TakeHeaders(block, map[]) == Headers(table, rest)
    ensures Dues(command + "\n" + block) == DuesFor(command, table)
  {
    WholeLine(command, block);
  }

  lemma SmuggledBlock(id: string, length: Entry, tail: string)
    requires PlainValue(id) && length.0 == CONTENT_LENGTH && PlainValue(length.1)
    ensures TakeHeaders(HeaderLines(Smuggling(id) + [length]) + ("\n" + tail), map[])
         == Headers(Store([("a", "1"), ("receipt", id), ("destination", "q"), length], map[]), tail)
  {
    var plain := [("a", "1"), ("receipt", id), ("destination", "q"), length];
    SmuggledHeaders(id, length);
    assert PlainEntries(plain);
    ParsePrintedHeaders(plain, tail, map[]);
  }

  lemma SmuggledReceipt(f: Frame, id: string)
    requires PlainValue(id) && f.command == "SEND" && f.headers.Some?
    ensures Dues(Encode(f, Smuggling(id))) == [OwesReceipt(id)]
  {
    var tail := BodyBytes(f) + TERMINATOR;
    var table := Store([("a", "1"), ("receipt", id), ("destination", "q"), LengthEntry(f)], map[]);
    ItoaIsPlain(PrintedLength(f));
    SmuggledBlock(id, LengthEntry(f), tail);
    StoredReceipt(id, LengthEntry(f));
    EncodeSplits(f, Smuggling(id), "");
    assert tail + "" == tail && Encode(f, Smuggling(id)) + "" == Encode(f, Smuggling(id));
    DuesOfParts("SEND", HeaderBytes(f, Smuggling(id)) + ("\n" + tail), table, tail);
  }

  lemma EnumeratesTwo(k1: string, v1: string, k2: string, v2: string)
    requires k1 != k2
    ensures Enumerates([(k1, v1), (k2, v2)], map[k1 := v1, k2 := v2])
  {
    StoreSnoc([], (k1, v1), map[]);
    StoreSnoc([(k1, v1)], (k2, v2), map[]);
    assert [] + [(k1, v1)] == [(k1, v1)] && [(k1, v1)] + [(k2, v2)] == [(k1, v1), (k2, v2)];
    assert map[k1 := v1][k2 := v2] == map[k1 := v1, k2 := v2];
    assert map[k1 := v1, k2 := v2].Keys == {k1, k2};
  }

  /**
   Plainness is needed: a property whose value holds LF puts a receipt header on the wire
   although "receipt" is no property, and the broker owes a RECEIPT that no call awaits.
   */
  lemma UnescapedValueLeaks(id: string) returns (s: Session, e: Event, t: Session)
    requires PlainValue(id)
    ensures "receipt" !in s.exchange && s.path != "" && s.inbound == "" && s.steady
    ensures Next(s, e, t) && e.call == Send(None, Some("x\0"), 2) && !Leaks(s.exchange, e.call)
    ensures DuesOf(e) == [OwesReceipt(id)] && Expects(e.call) == []
  {
    var value := "1" + "\n" + "receipt" + ":" + id;
    s := Session("/q", true, map["a" := value], Succeeded, true, "", "", "");
    var table: Table := map["a" := value, "destination" := "q"];
    var f := Frame("SEND", Some(table), Some("x\0"), 2);
    var entries := Smuggling(id);
    EnumeratesTwo("a", value, "destination", "q");
    var call := Send(None, Some("x\0"), 2);
    assert "/q"[1..] == "q";
    assert s.exchange["destination" := "q"] == table;
    assert FrameFor(s.path, s.stripRoot, s.exchange, call) == Some(f);
    e := Event(call, Some(f), entries, Encode(f, entries), true, NoWait, Succeeded);
    t := s.(sent := s.sent + Encode(f, entries));
    WriteIsNext(s, e, t, t);
    SmuggledReceipt(f, id);
  }
}
