/** The round trip with its exact conditions: which frames come back as their writer meant them. */
module Restoration {
  import opened CValues
  import opened Frames
  import opened Wire
  import opened RoundTrip
  import opened Reading

  /** The table holds no content-length, or a plain one; it is going to be overwritten. */
  predicate StaleLengthIsPlain(f: Frame) {
    f.headers.Some? && CONTENT_LENGTH in f.headers.value ==> PlainValue(f.headers.value[CONTENT_LENGTH])
  }

  /** Command and headers of `g` are those of `f`, content-length aside. */
  predicate SameHead(f: Frame, g: Frame) {
    && g.command == f.command
    && (f.headers.Some? ==>
          && g.headers.Some?
          && forall k :: k in f.headers.value && k != CONTENT_LENGTH ==>
               Lookup(g.headers.value, k) == Some(f.headers.value[k]))
  }

  lemma PlainWhereSame(t: Table, u: Table)
    requires PlainTable(u) && (CONTENT_LENGTH in t ==> PlainValue(t[CONTENT_LENGTH]))
    requires forall k :: k in t && k != CONTENT_LENGTH ==> Lookup(u, k) == Some(t[k])
    ensures PlainTable(t)
  {
    forall k | k in t ensures PlainKey(k) && PlainValue(t[k]) {
      if k != CONTENT_LENGTH {
        assert Lookup(u, k) == Some(t[k]);
      }
    }
  }

  /** A frame whose command and headers come back has text that needs no escaping. */
  lemma PlainTextIsNecessary(f: Frame, entries: seq<Entry>, g: Frame, rest: string)
    requires Parse(Encode(f, entries)) == Parsed(g, rest) && SameHead(f, g) && StaleLengthIsPlain(f)
    ensures WellFormed(f)
  {
    ReadShape(Encode(f, entries), Full(Encode(f, entries)));
    if f.headers.Some? {
      PlainWhereSame(f.headers.value, g.headers.value);
    }
  }

  lemma ReadBackHasSameHead(f: Frame)
    ensures SameHead(f, ReadBack(f))
  {
  }

  /** The wire form comes back if and only if the text is plain and the frame of a surviving kind. */
  lemma RoundTripReadsBack(f: Frame, entries: seq<Entry>)
    requires Addressable(f) && Order(f, entries) && StaleLengthIsPlain(f)
    ensures Parse(Encode(f, entries)) == Parsed(ReadBack(f), "") <==> WellFormed(f) && Survives(f)
  {
    if Parse(Encode(f, entries)) == Parsed(ReadBack(f), "") {
      ReadBackHasSameHead(f);
      PlainTextIsNecessary(f, entries, ReadBack(f), "");
    }
    if WellFormed(f) {
      RoundTripExactly(f, entries);
    }
  }

  /** The frame as its writer meant it, the way a reader sees frames. */
  function MeantBack(f: Frame): Frame
    requires Honest(f)
  {
    var body := MeantBody(f) + if f.headers.Some? then "" else "\0";
    var table: Table :=
      match f.headers
      case None => map[]
      case Some(t) => t[CONTENT_LENGTH := Itoa(|MeantBody(f)|)];
    Frame(f.command, Some(table), Some(body), |body|)
  }

  /** A specified length is one that the writer does not cut to an `int`. */
  predicate WholeLength(f: Frame) {
    f.body.Some? && Specified(f.bodyLength) ==> f.bodyLength <= INT_MAX
  }

  lemma MeantBackIsReadBack(f: Frame)
    requires Addressable(f) && Honest(f) && Survives(f)
    ensures MeantBack(f) == ReadBack(f) <==> WholeLength(f)
  {
    BodyIsWhole(f);
    if f.body.Some? {
      PrintedLengthIsBodySize(f);
      DecimalRoundTrip(PrintedLength(f));
    }
    assert MeantBody(f) + "" == MeantBody(f);
    if f.headers.None? && MeantBack(f) == ReadBack(f) {
      var meant, back := MeantBody(f) + "\0", BodyBytes(f) + "\0";
      assert meant[..|meant| - 1] == MeantBody(f) && back[..|back| - 1] == BodyBytes(f);
    }
  }

  /** A frame that does not survive does not come back as it was meant either. */
  lemma NonSurvivorIsNotMeant(f: Frame, entries: seq<Entry>)
    requires Addressable(f) && Honest(f) && Order(f, entries) && WellFormed(f) && !Survives(f)
    ensures Parse(Encode(f, entries)) != Parsed(MeantBack(f), "")
  {
    if f.headers.Some? {
      BodylessTableIsRefused(f, entries);
    } else {
      InnerNulIsLost(f, entries);
      PrintedLengthIsBodySize(f);
      BodyIsWhole(f);
    }
  }

  /**
   Restoration, exactly: for every frame and every order of its table, the reader returns
   what the writer's caller meant, with nothing left over, if and only if the text needs
   no escaping, the frame is of a surviving kind, and its length is not cut to an `int`.
   */
  lemma RoundTripRestores(f: Frame, entries: seq<Entry>)
    requires Addressable(f) && Honest(f) && Order(f, entries) && StaleLengthIsPlain(f)
    ensures Parse(Encode(f, entries)) == Parsed(MeantBack(f), "")
       <==> WellFormed(f) && Survives(f) && WholeLength(f)
  {
    if Parse(Encode(f, entries)) == Parsed(MeantBack(f), "") {
      PlainTextIsNecessary(f, entries, MeantBack(f), "");
    }
    if WellFormed(f) {
      if Survives(f) {
        RoundTripExactly(f, entries);
        MeantBackIsReadBack(f);
      } else {
        NonSurvivorIsNotMeant(f, entries);
      }
    }
  }
}
