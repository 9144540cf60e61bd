/**
 What the encoder and the reader are to each other: inverse on exactly the frames
 listed in `Survives`, stable under more input, uniquely decodable, normalising.
 */
module RoundTrip {
  import opened CValues
  import opened Frames
  import opened Wire

  // ----- Printing then parsing -----

  /** The frames whose encoding the reader turns back into the same frame. */
  predicate Survives(f: Frame) {
    match f.headers
    case Some(_) => f.body.Some?
    case None => f.body.None? || (IntLength(f) > 0 && '\0' !in BodyBytes(f))
  }

  /** The body that comes back: without a header table the terminating NUL becomes part of it. */
  function BodyBack(f: Frame): string {
    if f.headers.Some? then BodyBytes(f) else BodyBytes(f) + "\0"
  }

  function TableBack(f: Frame): Table {
    match f.headers
    case None => map[]
    case Some(table) => table[CONTENT_LENGTH := Itoa(PrintedLength(f))]
  }

  function ReadBack(f: Frame): Frame {
    Frame(f.command, Some(TableBack(f)), Some(BodyBack(f)), |BodyBack(f)|)
  }

  lemma {:induction false} FirstColon(s: string, i: nat)
    requires i < |s| && s[i] == ':' && ':' !in s[..i]
    ensures FindColon(s) == Some(i)
  {
    if i == 0 {
    } else {
      assert s[..i][0] == s[0];
      assert s[1..][..i - 1] == s[..i][1..];
      FirstColon(s[1..], i - 1);
    }
  }

  /** A printed header line is split where it was joined, whatever colons its value holds. */
  lemma HeaderLineSplits(e: Entry)
    requires PlainKey(e.0)
    ensures var line := e.0 + ":" + e.1;
            FindColon(line) == Some(|e.0|) && line[..|e.0|] == e.0 && line[|e.0| + 1..] == e.1
  {
    var line := e.0 + ":" + e.1;
    assert line[..|e.0|] == e.0;
    FirstColon(line, |e.0|);
  }

  /** Parsing printed header lines stores the entries in the order they were printed. */
  lemma {:induction false} ParsePrintedHeaders(entries: seq<Entry>, tail: string, table: Table)
    requires PlainEntries(entries)
    ensures TakeHeaders(HeaderLines(entries) + ("\n" + tail), table) == Headers(Store(entries, table), tail)
  {
    if entries == [] {
      TakeHeadersLine("", tail, table);
      assert HeaderLines(entries) + ("\n" + tail) == "" + "\n" + tail;
    } else {
      var e := entries[0];
      var line := e.0 + ":" + e.1;
      Assoc(line + "\n", HeaderLines(entries[1..]), "\n" + tail);
      TakeHeadersLine(line, HeaderLines(entries[1..]) + ("\n" + tail), table);
      HeaderLineSplits(e);
      ParsePrintedHeaders(entries[1..], tail, table[e.0 := e.1]);
    }
  }

  lemma PlainHeaderEntries(f: Frame, entries: seq<Entry>)
    requires WellFormed(f) && Order(f, entries)
    ensures PlainEntries(entries + [LengthEntry(f)])
  {
    PlainEnumeration(f, entries);
    ItoaIsPlain(PrintedLength(f));
  }

  /** The table that the header loop rebuilds from an encoded frame. */
  lemma ParseHeaderBytes(f: Frame, entries: seq<Entry>, tail: string)
    requires WellFormed(f) && Order(f, entries)
    ensures TakeHeaders(HeaderBytes(f, entries) + ("\n" + tail), map[]) == Headers(TableBack(f), tail)
  {
    if f.headers.Some? {
      PlainHeaderEntries(f, entries);
      ParsePrintedHeaders(entries + [LengthEntry(f)], tail, map[]);
      StoreSnoc(entries, LengthEntry(f), map[]);
    } else {
      ParsePrintedHeaders([], tail, map[]);
    }
  }

  /** Encoded command and headers are read back, so that only the body is left to read. */
  lemma ParseEncodedHead(f: Frame, entries: seq<Entry>, tail: string, d: Delivery)
    requires WellFormed(f) && Order(f, entries)
    ensures ParseUnder(f.command + "\n" + (HeaderBytes(f, entries) + ("\n" + tail)), d)
         == Finish(f.command, TableBack(f), TakeBody(tail, TableBack(f), d))
  {
    ParseHeaderBytes(f, entries, tail);
    WholeLine(f.command, HeaderBytes(f, entries) + ("\n" + tail));
  }

  /** What ends an uncounted body is the first NUL; the one byte after it decides. */
  lemma {:induction false} TakeTextStops(text: string, tail: string, stray: Option<char>)
    requires '\0' !in text
    ensures TakeText(text + "\0" + tail, stray) ==
            match stray {
              case Some(c) => if c == '\n' then Text(text + "\0", tail) else BadText(tail, true)
              case None =>
                if tail == "" then Dangling
                else if tail[0] == '\n' then Text(text + "\0", tail[1..])
                else BadText(tail[1..], true)
            }
  {
    var s := text + "\0" + tail;
    if text == "" {
      assert s[1..] == tail;
      assert tail != "" ==> s[1] == tail[0] && s[2..] == tail[1..];
    } else {
      assert s[1..] == text[1..] + "\0" + tail;
      TakeTextStops(text[1..], tail, stray);
      assert [text[0]] + (text[1..] + "\0") == text + "\0";
    }
  }

  lemma TakeCountedExact(body: string, tail: string, cut: nat)
    requires body != "" && cut >= |body|
    ensures TakeCounted(body + TERMINATOR + tail, |body|, cut) == Text(body, tail)
  {
    var s := body + TERMINATOR + tail;
    assert s[..|body|] == body;
    assert s[|body|..|body| + 2] == TERMINATOR;
    assert s[|body| + 2..] == tail;
  }

  /** The body that the reader finds behind the headers of an encoded frame. */
  lemma BodyComesBack(f: Frame, tail: string, d: Delivery)
    requires Addressable(f) && Survives(f) && |BodyBytes(f)| <= d.cut && d.stray.None?
    ensures TakeBody(BodyBytes(f) + TERMINATOR + tail, TableBack(f), d) == Text(BodyBack(f), tail)
  {
    var body := BodyBytes(f);
    if f.headers.Some? {
      PrintedLengthIsBodySize(f);
      TakeCountedExact(body, tail, d.cut);
    } else {
      assert body + TERMINATOR + tail == body + "\0" + ("\n" + tail);
      TakeTextStops(body, "\n" + tail, None);
      assert ("\n" + tail)[1..] == tail;
    }
  }

  lemma EncodeSplits(f: Frame, entries: seq<Entry>, tail: string)
    ensures Encode(f, entries) + tail
         == f.command + "\n" + (HeaderBytes(f, entries) + ("\n" + (BodyBytes(f) + TERMINATOR + tail)))
    ensures |BodyBytes(f)| <= |Encode(f, entries)|
  {
  }

  /**
   A surviving frame comes back from the front of any stream, whatever order its table
   was visited in, and reading stops exactly behind it.
   */
  lemma SurvivorComesBack(f: Frame, entries: seq<Entry>, tail: string)
    requires Addressable(f) && WellFormed(f) && Order(f, entries) && Survives(f)
    ensures Parse(Encode(f, entries) + tail) == Parsed(ReadBack(f), tail)
  {
    var d := Full(Encode(f, entries) + tail);
    EncodeSplits(f, entries, tail);
    ParseEncodedHead(f, entries, BodyBytes(f) + TERMINATOR + tail, d);
    BodyComesBack(f, tail, d);
  }

  /** Read alone, a frame with a table and no body is always refused. */
  lemma BodylessTableIsRefused(f: Frame, entries: seq<Entry>)
    requires WellFormed(f) && Order(f, entries)
    requires f.headers.Some? && f.body.None?
    ensures Parse(Encode(f, entries)).Rejected?
  {
    EncodeSplits(f, entries, "");
    assert Encode(f, entries) + "" == Encode(f, entries);
    assert BodyBytes(f) + TERMINATOR + "" == TERMINATOR;
    ParseEncodedHead(f, entries, TERMINATOR, Full(Encode(f, entries)));
  }

  /** Without a table, a body that holds a NUL is cut at that NUL or refused. */
  lemma InnerNulIsLost(f: Frame, entries: seq<Entry>)
    requires WellFormed(f) && Order(f, entries)
    requires f.headers.None? && '\0' in BodyBytes(f)
    ensures var r := Parse(Encode(f, entries));
            r.Parsed? ==> r.frame.body.Some? && |r.frame.body.value| <= |BodyBytes(f)|
  {
    var body := BodyBytes(f);
    var text := CText(body);
    var tail := body[|text| + 1..] + TERMINATOR;
    var d := Full(Encode(f, entries));
    EncodeSplits(f, entries, "");
    assert Encode(f, entries) + "" == Encode(f, entries);
    assert body + TERMINATOR + "" == text + "\0" + tail;
    ParseEncodedHead(f, entries, text + "\0" + tail, d);
    TakeTextStops(text, tail, None);
  }

  /**
   The round trip, exactly: for every frame whose text needs no escaping and every order
   of its table, the reader restores the frame and nothing is left over if and only if
   the frame has both a table and a body, or neither, or a counted NUL-free body alone.
   */
  lemma RoundTripExactly(f: Frame, entries: seq<Entry>)
    requires Addressable(f) && WellFormed(f) && Order(f, entries)
    ensures Survives(f) <==> Parse(Encode(f, entries)) == Parsed(ReadBack(f), "")
  {
    assert Encode(f, entries) + "" == Encode(f, entries);
    if Survives(f) {
      SurvivorComesBack(f, entries, "");
    } else if f.headers.Some? {
      BodylessTableIsRefused(f, entries);
    } else {
      InnerNulIsLost(f, entries);
    }
  }

  /** The frames and orders of a stream. */
  function EncodeAll(frames: seq<(Frame, seq<Entry>)>): string {
    if frames == [] then "" else Encode(frames[0].0, frames[0].1) + EncodeAll(frames[1..])
  }

  function ReadBackAll(frames: seq<(Frame, seq<Entry>)>): seq<Frame> {
    if frames == [] then [] else [ReadBack(frames[0].0)] + ReadBackAll(frames[1..])
  }

  ghost predicate Sendable(f: Frame, entries: seq<Entry>) {
    Addressable(f) && WellFormed(f) && Order(f, entries) && Survives(f)
  }

  /** A stream of surviving frames comes back frame by frame, with nothing left over. */
  lemma {:induction false} StreamRoundTrip(frames: seq<(Frame, seq<Entry>)>, tail: string)
    requires forall i :: 0 <= i < |frames| ==> Sendable(frames[i].0, frames[i].1)
    ensures ParseMany(EncodeAll(frames) + tail, |frames|) == Some((ReadBackAll(frames), tail))
  {
    if frames == [] {
      assert EncodeAll(frames) + tail == tail;
    } else {
      var (f, entries) := frames[0];
      var rest := EncodeAll(frames[1..]) + tail;
      Assoc(Encode(f, entries), EncodeAll(frames[1..]), tail);
      assert Sendable(f, entries);
      SurvivorComesBack(f, entries, rest);
      StreamRoundTrip(frames[1..], tail);
    }
  }

  /** Command and headers at the front of an encoded frame. */
  lemma EncodedHead(f: Frame, entries: seq<Entry>)
    requires WellFormed(f) && Order(f, entries)
    ensures var line := TakeLine(Encode(f, entries));
            && line.Line? && line.text == f.command
            && TakeHeaders(line.rest, map[]) == Headers(TableBack(f), BodyBytes(f) + TERMINATOR)
  {
    EncodeSplits(f, entries, "");
    assert BodyBytes(f) + TERMINATOR + "" == BodyBytes(f) + TERMINATOR;
    assert Encode(f, entries) + "" == Encode(f, entries);
    ParseHeaderBytes(f, entries, BodyBytes(f) + TERMINATOR);
    WholeLine(f.command, HeaderBytes(f, entries) + ("\n" + (BodyBytes(f) + TERMINATOR)));
  }

  // ----- What the reader accepts -----

  lemma {:induction false} HeadersArePlain(s: string, table: Table)
    requires PlainTable(table)
    ensures var r := TakeHeaders(s, table); r.Headers? ==> PlainTable(r.table)
    decreases |s|
  {
    var line := TakeLine(s);
    if line.Line? && line.text != "" && FindColon(line.text).Some? {
      var i := FindColon(line.text).value;
      HeadersArePlain(line.rest, table[line.text[..i] := line.text[i + 1..]]);
    }
  }

  function JoinLines(lines: seq<string>): string {
    if lines == [] then "" else lines[0] + "\n" + JoinLines(lines[1..])
  }

  /** A header line cut at its first colon. */
  function CutLine(line: string): (e: Entry)
    ensures ':' in line ==> line == e.0 + ":" + e.1 && ':' !in e.0
  {
    match FindColon(line)
    case None => (line, "")
    case Some(i) => (line[..i], line[i + 1..])
  }

  function CutAll(lines: seq<string>): seq<Entry> {
    if lines == [] then [] else [CutLine(lines[0])] + CutAll(lines[1..])
  }

  /** Lines of a header block: none is empty or holds LF or NUL. */
  predicate BlockLines(lines: seq<string>) {
    forall i :: 0 <= i < |lines| ==> lines[i] != "" && PlainCommand(lines[i])
  }

  predicate AllHaveColons(lines: seq<string>) {
    forall i :: 0 <= i < |lines| ==> ':' in lines[i]
  }

  lemma ColonsInTail(lines: seq<string>)
    requires lines != [] && ':' in lines[0]
    ensures AllHaveColons(lines) <==> AllHaveColons(lines[1..])
  {
    assert lines == [lines[0]] + lines[1..];
  }

  /**
   The header loop folds the lines of the header block: each line is cut at its first
   colon and stored, so a table is returned exactly when every line has a colon.
   */
  lemma {:induction false} HeaderBlock(lines: seq<string>, tail: string, table: Table)
    requires BlockLines(lines)
    ensures var r := TakeHeaders(JoinLines(lines) + ("\n" + tail), table);
            if AllHaveColons(lines) then r == Headers(Store(CutAll(lines), table), tail)
            else r.BadHeaders? && r.malformed
  {
    if lines == [] {
      TakeHeadersLine("", tail, table);
      assert JoinLines(lines) + ("\n" + tail) == "" + "\n" + tail;
    } else {
      Assoc(lines[0] + "\n", JoinLines(lines[1..]), "\n" + tail);
      TakeHeadersLine(lines[0], JoinLines(lines[1..]) + ("\n" + tail), table);
      if ':' in lines[0] {
        var e := CutLine(lines[0]);
        HeaderBlock(lines[1..], tail, table[e.0 := e.1]);
        ColonsInTail(lines);
      }
    }
  }
}
