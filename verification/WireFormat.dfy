/**
 The wire format spelled out: the bytes of a frame with every name, separator and
 terminator written down, as `stomp_write` prints them and as `stomp_read` takes them.
 */
module WireFormat {
  import opened CValues
  import opened Frames
  import opened Wire
  import opened RoundTrip

  // ----- Written -----

  /** Each entry of a table is printed on a line of its own, between those before and after it. */
  lemma LineOfEntry(entries: seq<Entry>, i: nat)
    requires i < |entries|
    ensures HeaderLines(entries)
         == HeaderLines(entries[..i]) + (entries[i].0 + ":" + entries[i].1 + "\n") + HeaderLines(entries[i + 1..])
    ensures HeaderLines([]) == ""
  {
    var front, back := entries[..i], entries[i..];
    assert HeaderLines(back) == HeaderLine(entries[i]) + HeaderLines(entries[i + 1..]) by {
      assert back[1..] == entries[i + 1..];
    }
    assert HeaderLines(entries) == HeaderLines(front) + HeaderLines(back) by {
      assert front + back == entries;
      HeaderLinesSplit(front, back);
    }
    Assoc(HeaderLines(front), HeaderLine(entries[i]), HeaderLines(entries[i + 1..]));
  }

  lemma LengthIsLast(f: Frame, entries: seq<Entry>)
    requires f.headers.Some?
    ensures HeaderBytes(f, entries) == HeaderLines(entries) + ("content-length:" + Itoa(PrintedLength(f)) + "\n")
  {
    HeaderLinesSnoc(entries, LengthEntry(f));
    assert "content-length" + ":" == "content-length:";
  }

  /** The bytes of a frame; one with a header table gets content-length as its last header line. */
  lemma WrittenForm(f: Frame, entries: seq<Entry>)
    ensures f.headers.Some? ==>
              Encode(f, entries) ==
              f.command + "\n" + (HeaderLines(entries) + ("content-length:" + Itoa(PrintedLength(f)) + "\n"))
              + "\n" + BodyBytes(f) + "\0\n"
    ensures f.headers.None? ==> Encode(f, entries) == f.command + "\n" + "" + "\n" + BodyBytes(f) + "\0\n"
  {
    if f.headers.Some? {
      LengthIsLast(f, entries);
    }
  }

  /** A length that is a positive `int` counts the bytes that are written, and is printed. */
  lemma WrittenCount(f: Frame)
    requires f.body.Some? && 1 <= AsInt(f.bodyLength) <= |f.body.value|
    ensures BodyBytes(f) == f.body.value[..AsInt(f.bodyLength)] && PrintedLength(f) == AsInt(f.bodyLength)
  {
  }

  /** With any other length the body is written as a text with its NUL, and that is counted. */
  lemma WrittenText(f: Frame, text: string)
    requires f.body.Some? && AsInt(f.bodyLength) <= 0
    requires '\0' !in text && text + "\0" <= f.body.value && |text| < 0x7FFF_FFFF
    ensures BodyBytes(f) == text + "\0" && PrintedLength(f) == |text| + 1
  {
    var tail := f.body.value[|text| + 1..];
    CTextTerminated(text, tail);
    assert text + "\0" + tail == f.body.value;
  }

  /** A length of -1 in a `size_t`, with no body, is printed as -1. */
  lemma WrittenMinusOne(f: Frame)
    requires f.body.None? && f.bodyLength == 0xFFFF_FFFF_FFFF_FFFF
    ensures Itoa(PrintedLength(f)) == "-1" && BodyBytes(f) == ""
  {
    MinusOne();
  }

  // ----- Read -----

  lemma LengthLine(n: int)
    ensures var line := "content-length:" + Itoa(n);
            FindColon(line) == Some(14) && line[..14] == "content-length" && line[15..] == Itoa(n) && PlainCommand(line)
  {
    HeaderLineSplits(("content-length", Itoa(n)));
    ItoaIsPlain(n);
    assert "content-length" + ":" == "content-length:";
    assert |"content-length"| == 14;
  }

  /** A head with one header line besides content-length. */
  lemma HeadIsRead(command: string, key: string, value: string, rest: string, d: Delivery)
    requires PlainCommand(command) && PlainKey(key) && PlainValue(value)
    ensures ParseUnder(command + "\n" + (key + ":" + value + "\n" + rest), d) ==
            match TakeHeaders(rest, map[key := value]) {
              case BadHeaders(left, malformed) => Rejected(left, malformed)
              case Headers(table, body) => Finish(command, table, TakeBody(body, table, d))
            }
  {
    var line := key + ":" + value;
    HeaderLineSplits((key, value));
    TakeHeadersLine(line, rest, map[]);
    WholeLine(command, line + "\n" + rest);
  }

  /** A counted body is exactly as long as content-length says, whatever bytes it holds. */
  lemma CountedFrameIsRead(command: string, key: string, value: string, body: string, tail: string)
    requires PlainCommand(command) && PlainKey(key) && PlainValue(value) && key != "content-length"
    requires 1 <= |body| <= 0x7FFF_FFFF_FFFF_FFFF
    ensures Parse(command + "\n" + (key + ":" + value + "\n"
                  + ("content-length:" + Itoa(|body|) + "\n" + ("\n" + (body + "\0\n" + tail)))))
         == Parsed(Frame(command, Some(map[key := value, "content-length" := Itoa(|body|)]), Some(body), |body|), tail)
  {
    var rest := body + "\0\n" + tail;
    var line := "content-length:" + Itoa(|body|);
    var table := map[key := value]["content-length" := Itoa(|body|)];
    var lines := line + "\n" + ("\n" + rest);
    var w := command + "\n" + (key + ":" + value + "\n" + lines);
    LengthLine(|body|);
    TakeHeadersLine(line, "\n" + rest, map[key := value]);
    TakeHeadersLine("", rest, table);
    assert "" + "\n" + rest == "\n" + rest;
    HeadIsRead(command, key, value, lines, Full(w));
    DecimalRoundTrip(|body|);
    TakeCountedExact(body, tail, |w|);
    assert table == map[key := value, "content-length" := Itoa(|body|)];
  }

  /** Without content-length the body is the text up to its NUL, and LF must follow. */
  lemma TextFrameIsRead(command: string, key: string, value: string, text: string, c: char, tail: string)
    requires PlainCommand(command) && PlainKey(key) && PlainValue(value) && key != "content-length"
    requires '\0' !in text
    ensures Parse(command + "\n" + (key + ":" + value + "\n" + ("\n" + (text + "\0" + ([c] + tail))))) ==
            if c == '\n' then Parsed(Frame(command, Some(map[key := value]), Some(text + "\0"), |text| + 1), tail)
            else Rejected(tail, true)
  {
    var rest := text + "\0" + ([c] + tail);
    var w := command + "\n" + (key + ":" + value + "\n" + ("\n" + rest));
    TakeHeadersLine("", rest, map[key := value]);
    assert "" + "\n" + rest == "\n" + rest;
    HeadIsRead(command, key, value, "\n" + rest, Full(w));
    TakeTextStops(text, [c] + tail, None);
    assert ([c] + tail)[1..] == tail;
  }

  lemma FlatMessage(n: string, body: string, tail: string)
    ensures "MESSAGE" + "\n" + ("content-length:" + n + "\n" + ("\n" + (body + "\0\n" + tail)))
         == "MESSAGE\ncontent-length:" + n + "\n\n" + body + "\0\n" + tail
  {
    var front, line, rest := "MESSAGE" + "\n", "content-length:" + n, body + "\0\n" + tail;
    var head := "MESSAGE\ncontent-length:" + n;
    assert front + "content-length:" == "MESSAGE\ncontent-length:";
    Assoc(front, "content-length:", n);
    Assoc(front, line, "\n" + ("\n" + rest));
    Assoc(line, "\n", "\n" + rest);
    assert "\n" + "\n" == "\n\n";
    Assoc("\n", "\n", rest);
    Assoc(head, "\n\n", rest);
    Assoc(body, "\0\n", tail);
    Assoc(head + "\n\n", body, "\0\n" + tail);
    Assoc(head + "\n\n" + body, "\0\n", tail);
  }

  /** A MESSAGE with nothing but content-length. */
  lemma MessageIsRead(body: string, tail: string)
    requires 1 <= |body| <= 0x7FFF_FFFF_FFFF_FFFF
    ensures Parse("MESSAGE\ncontent-length:" + Itoa(|body|) + "\n\n" + body + "\0\n" + tail)
         == Parsed(Frame("MESSAGE", Some(map["content-length" := Itoa(|body|)]), Some(body), |body|), tail)
  {
    var rest := body + "\0\n" + tail;
    var line := "content-length:" + Itoa(|body|);
    var w := "MESSAGE" + "\n" + (line + "\n" + ("\n" + rest));
    FlatMessage(Itoa(|body|), body, tail);
    LengthLine(|body|);
    TakeHeadersLine(line, "\n" + rest, map[]);
    TakeHeadersLine("", rest, map["content-length" := Itoa(|body|)]);
    assert "" + "\n" + rest == "\n" + rest;
    WholeLine("MESSAGE", line + "\n" + ("\n" + rest));
    DecimalRoundTrip(|body|);
    TakeCountedExact(body, tail, |w|);
  }

  // ----- Refused -----

  /** A NUL in the command, or a header line without colon, breaks the protocol there. */
  lemma BrokenHeadIsRefused(command: string, line: string, tail: string)
    requires PlainCommand(command) && PlainCommand(line) && line != "" && ':' !in line
    ensures Parse(command + ("\0" + tail)) == Rejected(tail, true)
    ensures Parse(command + "\n" + (line + "\n" + tail)) == Rejected(tail, true)
  {
    TakeLineStops(command, "\0" + tail);
    assert ("\0" + tail)[1..] == tail;
    WholeLine(command, line + "\n" + tail);
    TakeHeadersLine(line, tail, map[]);
  }

  lemma CountedEnd(body: string, end: string, tail: string, cut: nat)
    requires |end| == 2 && |body| <= cut
    ensures TakeCounted(body + end + tail, |body|, cut) ==
            if body == "" then BadText(end + tail, false)
            else if end[0] == '\0' && end[1] == '\n' then Text(body, tail)
            else BadText(tail, true)
  {
    var s := body + end + tail;
    assert s[..|body|] == body && s[|body|..|body| + 2] == end && s[|body| + 2..] == tail;
    assert body == "" ==> s == end + tail;
    assert end == [end[0], end[1]];
  }

  /** What follows a counted body must be NUL and LF, and content-length must not be 0. */
  lemma BrokenBodyIsRefused(command: string, body: string, end: string, tail: string)
    requires PlainCommand(command) && |body| <= 0x7FFF_FFFF_FFFF_FFFF && |end| == 2
    ensures Parse(command + "\n" + ("content-length:" + Itoa(|body|) + "\n" + ("\n" + (body + end + tail)))) ==
            if body == "" then Rejected(end + tail, false)
            else if end[0] == '\0' && end[1] == '\n' then
              Parsed(Frame(command, Some(map["content-length" := Itoa(|body|)]), Some(body), |body|), tail)
            else Rejected(tail, true)
  {
    var rest := body + end + tail;
    var line := "content-length:" + Itoa(|body|);
    var w := command + "\n" + (line + "\n" + ("\n" + rest));
    LengthLine(|body|);
    TakeHeadersLine(line, "\n" + rest, map[]);
    TakeHeadersLine("", rest, map["content-length" := Itoa(|body|)]);
    assert "" + "\n" + rest == "\n" + rest;
    WholeLine(command, line + "\n" + ("\n" + rest));
    DecimalRoundTrip(|body|);
    CountedEnd(body, end, tail, |w|);
  }
}
