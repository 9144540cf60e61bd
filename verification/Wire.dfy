/**
 The reader of `stomp_read` as a function of the bytes it is given.

 A line ends at LF and must not hold a NUL. A body is either as long as
 content-length says or everything up to the first NUL; NUL LF ends the frame.
 */
module Wire {
  import opened CValues
  import opened Frames

  // ----- Lines -----

  datatype LineResult = Line(text: string, rest: string) | NulFirst(rest: string) | NoLine

  function TakeLine(s: string): (r: LineResult)
    ensures r.Line? ==> s == r.text + "\n" + r.rest && PlainCommand(r.text)
    ensures r.NulFirst? ==> |r.rest| < |s|
  {
    if s == "" then NoLine
    else if s[0] == '\n' then Line("", s[1..])
    else if s[0] == '\0' then NulFirst(s[1..])
    else
      match TakeLine(s[1..])
      case Line(text, rest) => Line([s[0]] + text, rest)
      case NulFirst(rest) => NulFirst(rest)
      case NoLine => NoLine
  }

  /** What stops a line is the first LF or NUL, or the end of input. */
  lemma {:induction false} TakeLineStops(text: string, tail: string)
    requires PlainCommand(text)
    ensures TakeLine(text + tail) ==
            if tail == "" then NoLine
            else if tail[0] == '\n' then Line(text, tail[1..])
            else if tail[0] == '\0' then NulFirst(tail[1..])
            else TakeLine(text + tail)
  {
    if text == "" {
      assert text + tail == tail;
    } else {
      assert (text + tail)[1..] == text[1..] + tail;
      TakeLineStops(text[1..], tail);
      assert [text[0]] + text[1..] == text;
    }
  }

  /** A plain text followed by LF is a line. */
  lemma WholeLine(text: string, rest: string)
    requires PlainCommand(text)
    ensures TakeLine(text + "\n" + rest) == Line(text, rest)
  {
    Assoc(text, "\n", rest);
    TakeLineStops(text, "\n" + rest);
    assert ("\n" + rest)[1..] == rest;
  }

  // ----- Headers -----

  /** `strstr(p, ":")`. */
  function FindColon(s: string): (r: Option<nat>)
    ensures r.None? <==> ':' !in s
    ensures r.Some? ==> r.value < |s| && s[r.value] == ':' && ':' !in s[..r.value]
  {
    if s == "" then None
    else if s[0] == ':' then Some(0)
    else
      match FindColon(s[1..])
      case None => None
      case Some(i) => assert s[..i + 1] == [s[0]] + s[1..][..i]; Some(i + 1)
  }

  datatype HeaderResult = Headers(table: Table, rest: string) | BadHeaders(rest: string, malformed: bool)

  /** Header lines up to the empty line, stored into `table` one by one. */
  function TakeHeaders(s: string, table: Table): (r: HeaderResult)
    ensures r.Headers? ==> |r.rest| < |s|
    decreases |s|
  {
    match TakeLine(s)
    case NoLine => BadHeaders("", false)
    case NulFirst(rest) => BadHeaders(rest, true)
    case Line(text, rest) =>
      if text == "" then Headers(table, rest)
      else
        match FindColon(text)
        case None => BadHeaders(rest, true)
        case Some(i) => TakeHeaders(rest, table[text[..i] := text[i + 1..]])
  }

  /** The header loop at a complete line. */
  lemma TakeHeadersLine(text: string, rest: string, table: Table)
    requires PlainCommand(text)
    ensures TakeHeaders(text + "\n" + rest, table) ==
            if text == "" then Headers(table, rest)
            else match FindColon(text) {
                   case None => BadHeaders(rest, true)
                   case Some(i) => TakeHeaders(rest, table[text[..i] := text[i + 1..]])
                 }
  {
    WholeLine(text, rest);
  }

  // ----- Bodies -----

  /**
   How a socket served the receives of one frame: the most bytes the single receive of
   a counted body delivered, and, when the receive of the byte after a NUL failed, the
   byte that happened to be in the unset buffer (its result is not checked).
   */
  datatype Delivery = Delivery(cut: nat, stray: Option<char>)

  datatype TextResult = Text(data: string, rest: string) | BadText(rest: string, malformed: bool) | Dangling

  /** A body without content-length: up to and including the first NUL, then LF. */
  function TakeText(s: string, stray: Option<char>): (r: TextResult) {
    if s == "" then BadText("", false)
    else if s[0] == '\0' then
      match stray
      case Some(c) => if c == '\n' then Text("\0", s[1..]) else BadText(s[1..], true)
      case None =>
        if |s| == 1 then Dangling
        else if s[1] == '\n' then Text("\0", s[2..])
        else BadText(s[2..], true)
    else
      match TakeText(s[1..], stray)
      case Text(data, rest) => Text([s[0]] + data, rest)
      case BadText(rest, malformed) => BadText(rest, malformed)
      case Dangling => Dangling
  }

  /**
   A parsed frame; a rejected one, with what is left unread and whether the bytes (and
   not the socket) were at fault; or Undefined when the input ends right after the NUL
   of an uncounted body, where the code tests an unset byte.
   */
  datatype FrameResult = Parsed(frame: Frame, rest: string) | Rejected(rest: string, malformed: bool) | Undefined

  /** The frame was read with a content-length. */
  predicate Counted(f: Frame) {
    f.headers.Some? && "content-length" in f.headers.value
  }

  /** A body of `n` bytes, then exactly NUL LF. */
  function TakeCounted(s: string, n: nat, cut: nat): (r: TextResult)
  {
    var k := Min(n, Min(|s|, cut));
    if k == 0 then BadText(s, false)
    else if |s| == k then BadText("", false)
    else if |s| == k + 1 then BadText("", true)
    else if s[k..k + 2] == TERMINATOR then Text(s[..k], s[k + 2..])
    else BadText(s[k + 2..], true)
  }

  function TakeBody(s: string, table: Table, d: Delivery): TextResult {
    if CONTENT_LENGTH in table then TakeCounted(s, AsSize(Atoi64(table[CONTENT_LENGTH])), d.cut)
    else TakeText(s, d.stray)
  }

  function Finish(command: string, table: Table, body: TextResult): FrameResult {
    match body
    case Text(data, rest) => Parsed(Frame(command, Some(table), Some(data), |data|), rest)
    case BadText(rest, malformed) => Rejected(rest, malformed)
    case Dangling => Undefined
  }

  /** One frame read from `s` over a socket that serves receives as `d` says. */
  function ParseUnder(s: string, d: Delivery): FrameResult {
    match TakeLine(s)
    case NoLine => Rejected("", false)
    case NulFirst(rest) => Rejected(rest, true)
    case Line(command, s1) =>
      match TakeHeaders(s1, map[])
      case BadHeaders(rest, malformed) => Rejected(rest, malformed)
      case Headers(table, s2) => Finish(command, table, TakeBody(s2, table, d))
  }

  /** A socket that holds nothing back. */
  function Full(s: string): Delivery {
    Delivery(|s|, None)
  }

  function Parse(s: string): FrameResult {
    ParseUnder(s, Full(s))
  }

  // ----- What breaks the protocol -----

  /** Of the two bytes behind a counted body only one was received. */
  predicate HalfTerminator(s: string, n: nat, cut: nat, rest: string) {
    var k := Min(n, Min(|s|, cut));
    0 < k && k + 1 < |s| && rest == s[k + 1..]
  }

  /** The body part in front of `rest` breaks the protocol. */
  predicate BadBody(s: string, table: Table, d: Delivery, rest: string) {
    || TakeBody(s, table, d) == BadText(rest, true)
    || ("content-length" in table && HalfTerminator(s, AsSize(Atoi64(table["content-length"])), d.cut, rest))
  }

  /** The bytes in front of `rest` break the protocol, whatever the socket reports. */
  predicate BadBytes(s: string, d: Delivery, rest: string) {
    match TakeLine(s)
    case NoLine => false
    case NulFirst(left) => left == rest
    case Line(_, block) =>
      match TakeHeaders(block, map[])
      case BadHeaders(left, malformed) => malformed && left == rest
      case Headers(table, body) => BadBody(body, table, d, rest)
  }

  /** `n` frames in a row. */
  function ParseMany(s: string, n: nat): Option<(seq<Frame>, string)>
    decreases n
  {
    if n == 0 then Some(([], s))
    else
      match Parse(s)
      case Parsed(f, rest) =>
        (match ParseMany(rest, n - 1)
         case Some((frames, left)) => Some(([f] + frames, left))
         case None => None)
      case _ => None
  }
}
