/**
 What any successful read means: it depends on the bytes it consumed and on nothing
 behind them, and it yields a frame that can be written again.
 */
module Reading {
  import opened CValues
  import opened Frames
  import opened Wire
  import opened RoundTrip

  // ----- Locality -----

  /** A header block is decided by its own bytes `c`: any `t` may follow them. */
  lemma {:induction false} HeadersAreLocal(s: string, table: Table, t: string) returns (c: string)
    requires TakeHeaders(s, table).Headers?
    ensures s == c + TakeHeaders(s, table).rest
    ensures TakeHeaders(c + t, table) == Headers(TakeHeaders(s, table).table, t)
    decreases |s|
  {
    var text, rest := TakeLine(s).text, TakeLine(s).rest;
    TakeHeadersLine(text, rest, table);
    if text == "" {
      c := "\n";
      TakeHeadersLine("", t, table);
      assert c + t == "" + "\n" + t;
    } else {
      var i := FindColon(text).value;
      var c1 := HeadersAreLocal(rest, table[text[..i] := text[i + 1..]], t);
      c := text + "\n" + c1;
      Assoc(text + "\n", c1, TakeHeaders(s, table).rest);
      Assoc(text + "\n", c1, t);
      TakeHeadersLine(text, c1 + t, table);
    }
  }

  lemma TakeTextStep(b: char, s: string, stray: Option<char>)
    requires b != '\0'
    ensures TakeText([b] + s, stray) ==
            match TakeText(s, stray) {
              case Text(data, rest) => Text([b] + data, rest)
              case BadText(rest, malformed) => BadText(rest, malformed)
              case Dangling => Dangling
            }
  {
    assert ([b] + s)[1..] == s;
  }

  lemma {:induction false} TextIsLocal(s: string, stray: Option<char>, t: string) returns (c: string)
    requires TakeText(s, stray).Text?
    ensures TakeText(s, stray).data != ""
    ensures s == c + TakeText(s, stray).rest
    ensures TakeText(c + t, stray) == Text(TakeText(s, stray).data, t)
  {
    if s[0] == '\0' {
      c := if stray.None? then TERMINATOR else "\0";
      assert (c + t)[1..] == if stray.None? then "\n" + t else t;
    } else {
      var c1 := TextIsLocal(s[1..], stray, t);
      c := [s[0]] + c1;
      assert s == [s[0]] + s[1..];
      Assoc([s[0]], c1, TakeText(s, stray).rest);
      TakeTextStep(s[0], s[1..], stray);
      Assoc([s[0]], c1, t);
      TakeTextStep(s[0], c1 + t, stray);
    }
  }

  lemma CountedIsLocal(s: string, n: nat, cut: nat, cut': nat, t: string) returns (c: string)
    requires TakeCounted(s, n, cut).Text?
    requires cut' == cut || (|s| <= cut && |s| - |TakeCounted(s, n, cut).rest| <= cut')
    ensures TakeCounted(s, n, cut).data != ""
    ensures s == c + TakeCounted(s, n, cut).rest
    ensures TakeCounted(c + t, n, cut') == Text(TakeCounted(s, n, cut).data, t)
  {
    var data := TakeCounted(s, n, cut).data;
    var k := |data|;
    c := data + TERMINATOR;
    assert s == s[..k] + s[k..k + 2] + s[k + 2..];
    var w := c + t;
    assert w[..k] == data && w[k..k + 2] == TERMINATOR && w[k + 2..] == t;
  }

  /** How a delivery may change when other bytes follow: not at all, or from full to full. */
  predicate SameService(s: string, rest: string, d: Delivery, d': Delivery) {
    d'.stray == d.stray && (d'.cut == d.cut || (|s| <= d.cut && |s| - |rest| <= d'.cut))
  }

  lemma BodyIsLocal(s: string, table: Table, d: Delivery, d': Delivery, t: string) returns (c: string)
    requires TakeBody(s, table, d).Text?
    requires SameService(s, TakeBody(s, table, d).rest, d, d')
    ensures TakeBody(s, table, d).data != ""
    ensures s == c + TakeBody(s, table, d).rest
    ensures TakeBody(c + t, table, d') == Text(TakeBody(s, table, d).data, t)
  {
    if CONTENT_LENGTH in table {
      c := CountedIsLocal(s, AsSize(Atoi64(table[CONTENT_LENGTH])), d.cut, d'.cut, t);
    } else {
      c := TextIsLocal(s, d.stray, t);
    }
  }

  /** A read put together from its three parts. */
  lemma ParseParts(command: string, block: string, rest: string, table: Table, d: Delivery)
    requires PlainCommand(command)
    requires TakeHeaders(block, map[]) == Headers(table, rest)
    ensures ParseUnder(command + "\n" + block, d) == Finish(command, table, TakeBody(rest, table, d))
  {
    WholeLine(command, block);
  }

  /**
   A successful read is decided by the bytes `c` that it consumed: put anything behind
   them and the reader returns the same frame and stops at the same place.
   */
  lemma ReadIsLocal(s: string, d: Delivery, d': Delivery, t: string) returns (c: string)
    requires ParseUnder(s, d).Parsed?
    requires SameService(s, ParseUnder(s, d).rest, d, d')
    ensures c != "" && s == c + ParseUnder(s, d).rest
    ensures ParseUnder(c + t, d') == Parsed(ParseUnder(s, d).frame, t)
  {
    var text, block := TakeLine(s).text, TakeLine(s).rest;
    var table, body := TakeHeaders(block, map[]).table, TakeHeaders(block, map[]).rest;
    var rest := ParseUnder(s, d).rest;
    var c2 := BodyIsLocal(body, table, d, d', t);
    var c1 := HeadersAreLocal(block, map[], c2 + t);
    c := text + "\n" + (c1 + c2);
    Assoc(c1, c2, rest);
    Assoc(text + "\n", c1 + c2, rest);
    Assoc(c1, c2, t);
    Assoc(text + "\n", c1 + c2, t);
    ParseParts(text, c1 + (c2 + t), c2 + t, table, d');
  }

  /** More input behind a frame changes nothing about reading it. */
  lemma PrefixStable(s: string, t: string)
    requires Parse(s).Parsed?
    ensures Parse(s + t) == Parsed(Parse(s).frame, Parse(s).rest + t)
  {
    var rest := Parse(s).rest;
    var c := ReadIsLocal(s, Full(s), Full(s + t), rest + t);
    Assoc(c, rest, t);
  }

  /** How many bytes a successful read consumes. */
  function Used(s: string): int
    requires Parse(s).Parsed?
  {
    |s| - |Parse(s).rest|
  }

  /** The consumed bytes alone are that one frame. */
  lemma ExactlyConsumed(s: string)
    requires Parse(s).Parsed?
    ensures 0 < Used(s) <= |s| && Parse(s).rest == s[Used(s)..]
    ensures Parse(s[..Used(s)]) == Parsed(Parse(s).frame, "")
  {
    var _ := ReadIsLocal(s, Full(s), Full(s), "");
    var c := ReadIsLocal(s, Full(s), Delivery(Used(s), None), "");
    assert c + "" == s[..Used(s)];
  }

  /** An accepted frame has plain text, a table and a non-empty body of its stated length. */
  lemma ReadShape(s: string, d: Delivery)
    requires ParseUnder(s, d).Parsed?
    ensures var f := ParseUnder(s, d).frame;
            && WellFormed(f) && f.headers.Some?
            && f.body.Some? && f.bodyLength == |f.body.value| >= 1
  {
    var line := TakeLine(s);
    HeadersArePlain(line.rest, map[]);
    var h := TakeHeaders(line.rest, map[]);
    var _ := BodyIsLocal(h.rest, h.table, d, d, "");
  }

  // ----- Normal form -----

  function Canonical(f: Frame): Frame
    requires f.headers.Some?
  {
    f.(headers := Some(f.headers.value[CONTENT_LENGTH := Itoa(f.bodyLength)]))
  }

  /** The shape of an accepted frame whose body length is an `int`. */
  predicate Rewritable(f: Frame) {
    && WellFormed(f) && f.headers.Some?
    && f.body.Some? && 1 <= f.bodyLength == |f.body.value| <= INT_MAX
  }

  lemma CanonicalIsRewritable(f: Frame)
    requires Rewritable(f)
    ensures Rewritable(Canonical(f)) && Canonical(Canonical(f)) == Canonical(f)
  {
    ItoaIsPlain(f.bodyLength);
    var v := Itoa(f.bodyLength);
    assert f.headers.value[CONTENT_LENGTH := v][CONTENT_LENGTH := v] == f.headers.value[CONTENT_LENGTH := v];
  }

  lemma RewritableComesBack(f: Frame, entries: seq<Entry>)
    requires Rewritable(f) && Order(f, entries)
    ensures Parse(Encode(f, entries)) == Parsed(Canonical(f), "")
  {
    assert BodyBytes(f) == f.body.value;
    SurvivorComesBack(f, entries, "");
    assert Encode(f, entries) + "" == Encode(f, entries);
  }

  /**
   Whatever the reader accepted, writing it and reading it again only makes its
   content-length canonical, if and only if the body length fits in an `int`.
   */
  lemma NormalForm(s: string, entries: seq<Entry>)
    requires Parse(s).Parsed? && Order(Parse(s).frame, entries) && Addressable(Parse(s).frame)
    ensures var f := Parse(s).frame;
            f.headers.Some? &&
            (f.bodyLength <= INT_MAX <==> Parse(Encode(f, entries)) == Parsed(Canonical(f), ""))
  {
    var f := Parse(s).frame;
    ReadShape(s, Full(s));
    if f.bodyLength <= INT_MAX {
      RewritableComesBack(f, entries);
    } else {
      SurvivorComesBack(f, entries, "");
      assert Encode(f, entries) + "" == Encode(f, entries);
      PrintedLengthIsBodySize(f);
    }
  }

  /** A second pass changes nothing, in whatever order the tables were visited. */
  lemma NormalFormIsFixed(s: string, entries: seq<Entry>)
    requires Parse(s).Parsed? && Parse(s).frame.bodyLength <= INT_MAX
    requires Parse(s).frame.headers.Some? ==> Order(Canonical(Parse(s).frame), entries)
    ensures var f := Parse(s).frame;
            f.headers.Some? && Parse(Encode(Canonical(f), entries)) == Parsed(Canonical(f), "")
  {
    ReadShape(s, Full(s));
    var f := Parse(s).frame;
    CanonicalIsRewritable(f);
    RewritableComesBack(Canonical(f), entries);
  }
}
