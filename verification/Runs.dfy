/** What holds over every run of API calls, whatever the socket and the peer do. */
module Runs {
  import opened CValues
  import opened Frames
  import opened Wire
  import opened RoundTrip
  import opened StompIo
  import opened Protocol

  /** Sessions `ss` and the calls between them. */
  ghost predicate Run(ss: seq<Session>, es: seq<Event>) {
    |ss| == |es| + 1 && forall i :: 0 <= i < |es| ==> Next(ss[i], es[i], ss[i + 1])
  }

  lemma RunFront(ss: seq<Session>, es: seq<Event>)
    requires Run(ss, es) && es != []
    ensures Run(ss[..|es|], es[..|es| - 1]) && Next(ss[|es| - 1], es[|es| - 1], ss[|es|])
  {
    var n := |es| - 1;
    forall i | 0 <= i < n ensures Next(ss[..|es|][i], es[..n][i], ss[..|es|][i + 1]) {
      assert Next(ss[i], es[i], ss[i + 1]);
    }
    assert Next(ss[n], es[n], ss[n + 1]);
  }

  /** Adding and clearing properties are steps too: they leave the connection alone. */
  lemma PropertiesAreNext(s: Session, name: string, value: Option<string>)
    requires s.path != ""
    ensures Next(s, Event(Add(name, value), None, [], "", true, NoWait, Succeeded),
                 s.(exchange := Put(s.exchange, name, value)))
    ensures Next(s, Event(Clear, None, [], "", true, NoWait, Succeeded), s.(exchange := map[]))
  {
    assert s.sent == s.sent + "";
  }

  // ----- The wire is a trace -----

  function WrittenBy(es: seq<Event>): string {
    if es == [] then "" else WrittenBy(es[..|es| - 1]) + es[|es| - 1].written
  }

  /** The outbound bytes are what the calls wrote, in call order. */
  lemma {:induction false} WireTrace(ss: seq<Session>, es: seq<Event>)
    requires Run(ss, es)
    ensures ss[|es|].sent == ss[0].sent + WrittenBy(es)
  {
    if es == [] {
      assert ss[0].sent + "" == ss[0].sent;
    } else {
      var n := |es| - 1;
      RunFront(ss, es);
      WireTrace(ss[..|es|], es[..n]);
      Assoc(ss[0].sent, WrittenBy(es[..n]), es[n].written);
    }
  }

  /** The frames written over a run, each with the order of its table. */
  function FramesOf(es: seq<Event>): seq<(Frame, seq<Entry>)> {
    if es == [] then []
    else
      var e := es[|es| - 1];
      match e.frame
      case None => FramesOf(es[..|es| - 1])
      case Some(f) => FramesOf(es[..|es| - 1]) + [(f, e.entries)]
  }

  lemma {:induction false} EncodeAllSnoc(frames: seq<(Frame, seq<Entry>)>, last: (Frame, seq<Entry>))
    ensures EncodeAll(frames + [last]) == EncodeAll(frames) + Encode(last.0, last.1)
  {
    if frames == [] {
      assert (frames + [last])[1..] == [];
    } else {
      assert (frames + [last])[1..] == frames[1..] + [last];
      EncodeAllSnoc(frames[1..], last);
      Assoc(Encode(frames[0].0, frames[0].1), EncodeAll(frames[1..]), Encode(last.0, last.1));
    }
  }

  /**
   If every write but perhaps the last succeeded, the wire holds one whole encoded frame
   for each earlier writing call, in call order, and then a prefix of the last frame.
   */
  lemma {:induction false} WireHoldsWholeFrames(ss: seq<Session>, es: seq<Event>)
    requires Run(ss, es) && forall i :: 0 <= i < |es| - 1 ==> es[i].complete
    ensures WrittenBy(es) <= EncodeAll(FramesOf(es))
    ensures es != [] ==> EncodeAll(FramesOf(es[..|es| - 1])) <= WrittenBy(es)
    ensures (es == [] || es[|es| - 1].complete) ==> WrittenBy(es) == EncodeAll(FramesOf(es))
  {
    if es == [] {
    } else {
      var n := |es| - 1;
      RunFront(ss, es);
      WireHoldsWholeFrames(ss[..|es|], es[..n]);
      if es[n].frame.Some? {
        EncodeAllSnoc(FramesOf(es[..n]), (es[n].frame.value, es[n].entries));
      }
    }
  }

  /** A completed SEND of a body. */
  predicate ReadableSend(e: Event) {
    e.call.Send? && e.complete && e.call.body.Some? && AddressableBody(e.call.body, e.call.size)
  }

  /** A run whose calls use plain values stays plain if it starts plain. */
  lemma RunStaysPlain(ss: seq<Session>, es: seq<Event>, k: nat)
    requires Run(ss, es) && k <= |es| && PlainSession(ss[0].path, ss[0].exchange)
    requires forall i :: 0 <= i < |es| ==> PlainCall(es[i].call)
    ensures PlainSession(ss[k].path, ss[k].exchange)
  {
    var i := 0;
    while i < k
      invariant i <= k && PlainSession(ss[i].path, ss[i].exchange)
    {
      NextKeepsPlain(ss[i], es[i], ss[i + 1]);
      i := i + 1;
    }
  }

  lemma ReadableSendIsSendable(s: Session, e: Event, t: Session)
    requires Next(s, e, t) && ReadableSend(e) && PlainSession(s.path, s.exchange)
    ensures e.frame.Some? && Sendable(e.frame.value, e.entries)
  {
    CallsWriteWellFormedFrames(s.path, s.stripRoot, s.exchange, e.call);
    OnlySendsSurvive(s.path, s.stripRoot, s.exchange, e.call);
  }

  /** Every frame that a run writes can be read back. */
  ghost predicate AllSendable(es: seq<Event>) {
    forall i :: 0 <= i < |es| ==> es[i].frame.Some? ==> Sendable(es[i].frame.value, es[i].entries)
  }

  lemma {:induction false} FramesOfAreSendable(es: seq<Event>)
    requires AllSendable(es)
    ensures forall i :: 0 <= i < |FramesOf(es)| ==> Sendable(FramesOf(es)[i].0, FramesOf(es)[i].1)
  {
    if es == [] {
    } else {
      FramesOfAreSendable(es[..|es| - 1]);
    }
  }

  /**
   Wire and reader together: what a run of sends, receives and property changes adds to
   the wire is read back as exactly its frames, in call order, and nothing else. Plain
   values are asked for at the start and of the calls; received ones are plain.
   */
  lemma WireReadsBack(ss: seq<Session>, es: seq<Event>)
    requires Run(ss, es) && PlainSession(ss[0].path, ss[0].exchange)
    requires forall i :: 0 <= i < |es| ==> PlainCall(es[i].call) && (es[i].frame.Some? ==> ReadableSend(es[i]))
    ensures ss[|es|].sent == ss[0].sent + WrittenBy(es)
    ensures ParseMany(WrittenBy(es), |FramesOf(es)|) == Some((ReadBackAll(FramesOf(es)), ""))
  {
    forall i | 0 <= i < |es|
      ensures es[i].complete && (es[i].frame.Some? ==> Sendable(es[i].frame.value, es[i].entries))
    {
      assert Next(ss[i], es[i], ss[i + 1]);
      RunStaysPlain(ss, es, i);
      if es[i].frame.Some? {
        ReadableSendIsSendable(ss[i], es[i], ss[i + 1]);
      }
    }
    WireTrace(ss, es);
    WireHoldsWholeFrames(ss, es);
    FramesOfAreSendable(es);
    StreamRoundTrip(FramesOf(es), "");
    assert EncodeAll(FramesOf(es)) + "" == EncodeAll(FramesOf(es));
  }

  // ----- Input is conserved -----

  function ArrivedIn(wait: Wait): string {
    match wait
    case NoWait => ""
    case Idle(arrived) => arrived
    case Broken(arrived, _, _) => arrived
    case Reply(arrived, _, _) => arrived
  }

  function Arrived(es: seq<Event>): string {
    if es == [] then "" else Arrived(es[..|es| - 1]) + ArrivedIn(es[|es| - 1].wait)
  }

  lemma StepConserves(s: Session, e: Event, t: Session)
    requires Next(s, e, t)
    ensures Conserved(s.received, s.inbound + ArrivedIn(e.wait), t.received, t.inbound)
  {
    assert s.inbound + "" == s.inbound;
  }

  /**
   Whatever goes wrong, no byte is lost, duplicated or reordered: the bytes received so
   far, then those still waiting, are the bytes that arrived over the run.
   */
  lemma {:induction false} InputConservation(ss: seq<Session>, es: seq<Event>)
    requires Run(ss, es)
    ensures ss[0].received <= ss[|es|].received
    ensures ss[0].received + (ss[0].inbound + Arrived(es)) == ss[|es|].received + ss[|es|].inbound
  {
    var s0 := ss[0];
    if es == [] {
      assert s0.inbound + "" == s0.inbound;
    } else {
      var n := |es| - 1;
      RunFront(ss, es);
      InputConservation(ss[..|es|], es[..n]);
      var s, t, more := ss[n], ss[n + 1], ArrivedIn(es[n].wait);
      StepConserves(s, es[n], t);
      Assoc(s.received, s.inbound, more);
      Assoc(s0.received, s0.inbound + Arrived(es[..n]), more);
      Assoc(s0.inbound, Arrived(es[..n]), more);
    }
  }

  // ----- Exchange properties are their history -----

  datatype Effect = Keeps | Sets(value: Option<string>)

  /** What a call does to one exchange property. */
  function EffectOn(e: Event, key: string): Effect {
    match e.call
    case Add(name, value) => if name == key then Sets(value) else Keeps
    case Clear => Sets(None)
    case Receive =>
      if e.wait.Reply? && e.wait.frame.headers.Some? && key in e.wait.frame.headers.value
      then Sets(Some(e.wait.frame.headers.value[key]))
      else Keeps
    case _ => Keeps
  }

  /** The value from the latest event that wrote the key. */
  function LatestValue(es: seq<Event>, key: string, initial: Option<string>): Option<string> {
    if es == [] then initial
    else
      match EffectOn(es[|es| - 1], key)
      case Sets(value) => value
      case Keeps => LatestValue(es[..|es| - 1], key, initial)
  }

  /**
   A property's value is decided by the latest add, clear or received frame that wrote
   it; connecting, sending and every other call leave it alone.
   */
  lemma {:induction false} ExchangeIsItsHistory(ss: seq<Session>, es: seq<Event>, key: string)
    requires Run(ss, es)
    ensures Lookup(ss[|es|].exchange, key) == LatestValue(es, key, Lookup(ss[0].exchange, key))
  {
    if es == [] {
    } else {
      RunFront(ss, es);
      ExchangeIsItsHistory(ss[..|es|], es[..|es| - 1], key);
    }
  }

  // ----- Counting frames -----

  function Count(es: seq<Event>, p: Event -> bool): nat {
    if es == [] then 0 else Count(es[..|es| - 1], p) + if p(es[|es| - 1]) then 1 else 0
  }

  /**
   In a run without failures, the calls consume one frame for each connect, for each
   receipt asked for and for each frame received.
   */
  lemma {:induction false} FramesConsumed(ss: seq<Session>, es: seq<Event>)
    requires Run(ss, es)
    requires forall i :: 0 <= i < |es| ==> es[i].call.Receive? || es[i].code == Succeeded
    ensures Count(es, (e: Event) => e.wait.Reply?)
         == Count(es, (e: Event) => e.call.Connect?) + Count(es, (e: Event) => ReceiptOf(e.call) > 0)
          + Count(es, (e: Event) => e.call.Receive? && e.wait.Reply?)
  {
    if es == [] {
    } else {
      RunFront(ss, es);
      FramesConsumed(ss[..|es|], es[..|es| - 1]);
    }
  }
}
