/**
 src/stomp_io.c: the loops that write and read frames over a socket, proved against
 `Frames.Encode` and `Wire.ParseUnder`.
 */
module StompIo {
  import opened CValues
  import opened Frames
  import opened Wire
  import opened RoundTrip
  import opened Socket
  import opened BlockList

  // ----- Writing -----

  /** All of `text` was appended, or after an error exactly a prefix of it. */
  predicate Wrote(rc: AprStatus, before: string, after: string, text: string) {
    if rc == Success then after == before + text
    else before <= after <= before + text
  }

  /** Writing `more` after `done`. */
  lemma WroteMore(rc: AprStatus, before: string, mid: string, after: string, done: string, more: string)
    requires mid == before + done && Wrote(rc, mid, after, more)
    ensures Wrote(rc, before, after, done + more)
  {
    Assoc(before, done, more);
  }

  /** After an error it makes no difference what text was still to come. */
  lemma WroteStopped(rc: AprStatus, before: string, after: string, done: string, full: string)
    requires rc != Success && Wrote(rc, before, after, done) && done <= full
    ensures Wrote(rc, before, after, full)
  {
    assert full == done + full[|done|..];
    Assoc(before, done, full[|done|..]);
  }

  /** `stomp_write_buffer`. */
  method WriteBuffer(conn: Socket, data: string) returns (rc: AprStatus)
    modifies conn`sent, conn`log
    ensures if data == "" then rc == Success && conn.log == old(conn.log) else conn.log == old(conn.log).Sent(rc)
    ensures Wrote(rc, old(conn.sent), conn.sent, data)
    ensures conn.steady ==> rc == Success
  {
    var remaining: nat := |data|;
    while remaining > 0
      invariant remaining <= |data|
      invariant conn.sent == old(conn.sent) + data[..|data| - remaining]
      invariant conn.log == if remaining == |data| then old(conn.log) else old(conn.log).Sent(Success)
    {
      var rest := data[|data| - remaining..];
      var length;
      rc, length := conn.Send(rest);
      ghost var done := data[..|data| - remaining];
      assert done + rest[..length] == data[..|data| - remaining + length];
      Assoc(old(conn.sent), done, rest[..length]);
      remaining := remaining - length;
      if rc != Success {
        return;
      }
    }
    rc := Success;
  }

  lemma EnumerateOneMore(entries: seq<Entry>, table: Table, left: set<string>, k: string)
    requires k in left && left <= table.Keys && Enumerates(entries, table - left)
    ensures Enumerates(entries + [(k, table[k])], table - (left - {k}))
  {
    StoreSnoc(entries, (k, table[k]), map[]);
    var seen := table - left;
    var more := seen[k := table[k]];
    assert more == table - (left - {k});
    assert more.Keys == seen.Keys + {k};
  }

  /** `apr_hash_first` and `apr_hash_next`: the entries of a table in some order. */
  method HashEntries(table: Table) returns (entries: seq<Entry>)
    ensures Enumerates(entries, table)
  {
    entries := [];
    var left := table.Keys;
    assert table - left == map[];
    while left != {}
      invariant left <= table.Keys
      invariant Enumerates(entries, table - left)
      decreases left
    {
      var k :| k in left;
      EnumerateOneMore(entries, table, left, k);
      entries := entries + [(k, table[k])];
      left := left - {k};
    }
    assert table - left == table;
  }

  /** One header line: key, colon, value, LF. */
  method WriteHeader(conn: Socket, key: string, value: string) returns (rc: AprStatus)
    modifies conn`sent, conn`log
    ensures conn.log == old(conn.log).Sent(rc)
    ensures Wrote(rc, old(conn.sent), conn.sent, HeaderLine((key, value)))
    ensures conn.steady ==> rc == Success
  {
    ghost var s0, full := conn.sent, HeaderLine((key, value));
    rc := WriteBuffer(conn, key);
    if rc != Success {
      WroteStopped(rc, s0, conn.sent, key, full);
      return;
    }
    ghost var s1 := conn.sent;
    rc := WriteBuffer(conn, ":");
    WroteMore(rc, s0, s1, conn.sent, key, ":");
    if rc != Success {
      WroteStopped(rc, s0, conn.sent, key + ":", full);
      return;
    }
    ghost var s2 := conn.sent;
    rc := WriteBuffer(conn, value);
    WroteMore(rc, s0, s2, conn.sent, key + ":", value);
    if rc != Success {
      WroteStopped(rc, s0, conn.sent, key + ":" + value, full);
      return;
    }
    ghost var s3 := conn.sent;
    rc := WriteBuffer(conn, "\n");
    WroteMore(rc, s0, s3, conn.sent, key + ":" + value, "\n");
  }

  lemma HeaderLinesPrefix(f: Frame, entries: seq<Entry>, i: nat)
    requires i < |entries| && f.headers.Some?
    ensures HeaderLines(entries[..i + 1]) == HeaderLines(entries[..i]) + HeaderLine(entries[i])
    ensures HeaderLines(entries[..i + 1]) <= HeaderBytes(f, entries)
  {
    HeaderLinesSnoc(entries[..i], entries[i]);
    assert entries[..i] + [entries[i]] == entries[..i + 1];
    var all := entries + [LengthEntry(f)];
    assert all == entries[..i + 1] + all[i + 1..];
    HeaderLinesSplit(entries[..i + 1], all[i + 1..]);
  }

  /** The header part of `stomp_write`: the table in the given order, then content-length. */
  method WriteHeaders(conn: Socket, f: Frame, entries: seq<Entry>) returns (rc: AprStatus)
    requires Addressable(f) && f.headers.Some?
    modifies conn`sent, conn`log
    ensures conn.log == old(conn.log).Sent(rc)
    ensures Wrote(rc, old(conn.sent), conn.sent, HeaderBytes(f, entries))
    ensures conn.steady ==> rc == Success
  {
    ghost var s0, full := conn.sent, HeaderBytes(f, entries);
    var i := 0;
    while i < |entries|
      invariant i <= |entries|
      invariant conn.sent == s0 + HeaderLines(entries[..i])
      invariant conn.log == if i == 0 then old(conn.log) else old(conn.log).Sent(Success)
    {
      ghost var s1 := conn.sent;
      rc := WriteHeader(conn, entries[i].0, entries[i].1);
      HeaderLinesPrefix(f, entries, i);
      WroteMore(rc, s0, s1, conn.sent, HeaderLines(entries[..i]), HeaderLine(entries[i]));
      if rc != Success {
        WroteStopped(rc, s0, conn.sent, HeaderLines(entries[..i + 1]), full);
        return;
      }
      i := i + 1;
    }
    assert entries[..i] == entries;
    var bodyLength := AsInt(f.bodyLength);
    if bodyLength <= 0 && f.body.Some? {
      bodyLength := AsInt(|CText(f.body.value)| + 1);
    }
    ghost var s2 := conn.sent;
    rc := WriteHeader(conn, CONTENT_LENGTH, Itoa(bodyLength));
    HeaderLinesSnoc(entries, LengthEntry(f));
    WroteMore(rc, s0, s2, conn.sent, HeaderLines(entries), HeaderLine(LengthEntry(f)));
  }

  method WriteBody(conn: Socket, f: Frame) returns (rc: AprStatus)
    requires Addressable(f) && f.body.Some?
    modifies conn`sent, conn`log
    ensures conn.log == old(conn.log).Sent(rc)
    ensures Wrote(rc, old(conn.sent), conn.sent, BodyBytes(f))
    ensures conn.steady ==> rc == Success
  {
    var bodyLength := AsInt(f.bodyLength);
    if bodyLength <= 0 {
      bodyLength := |CText(f.body.value)| + 1;
      assert f.body.value[..bodyLength] == CText(f.body.value) + "\0";
    }
    rc := WriteBuffer(conn, f.body.value[..bodyLength]);
  }

  /** The part of a frame in front of its body. */
  function Head(f: Frame, entries: seq<Entry>): string {
    f.command + "\n" + HeaderBytes(f, entries) + "\n"
  }

  lemma HeadPrefixes(f: Frame, entries: seq<Entry>)
    ensures f.command <= Head(f, entries) && f.command + "\n" <= Head(f, entries)
    ensures f.command + "\n" + HeaderBytes(f, entries) <= Head(f, entries)
  {
  }

  /** The first part of `stomp_write`: command, headers and the empty line. */
  method WriteHead(conn: Socket, f: Frame, entries: seq<Entry>) returns (rc: AprStatus)
    requires Addressable(f)
    modifies conn`sent, conn`log
    ensures conn.log == old(conn.log).Sent(rc)
    ensures Wrote(rc, old(conn.sent), conn.sent, Head(f, entries))
    ensures conn.steady ==> rc == Success
  {
    ghost var s0, full := conn.sent, Head(f, entries);
    ghost var d1 := f.command;
    ghost var d2 := d1 + "\n";
    ghost var d3 := d2 + HeaderBytes(f, entries);
    HeadPrefixes(f, entries);

    rc := WriteBuffer(conn, f.command);
    if rc != Success {
      WroteStopped(rc, s0, conn.sent, d1, full);
      return;
    }
    ghost var s1 := conn.sent;
    rc := WriteBuffer(conn, "\n");
    WroteMore(rc, s0, s1, conn.sent, d1, "\n");
    if rc != Success {
      WroteStopped(rc, s0, conn.sent, d2, full);
      return;
    }
    ghost var s2 := conn.sent;
    if f.headers.Some? {
      rc := WriteHeaders(conn, f, entries);
    }
    WroteMore(rc, s0, s2, conn.sent, d2, HeaderBytes(f, entries));
    if rc != Success {
      WroteStopped(rc, s0, conn.sent, d3, full);
      return;
    }
    ghost var s3 := conn.sent;
    rc := WriteBuffer(conn, "\n");
    WroteMore(rc, s0, s3, conn.sent, d3, "\n");
  }

  lemma EncodePrefixes(f: Frame, entries: seq<Entry>)
    ensures Encode(f, entries) == Head(f, entries) + BodyBytes(f) + TERMINATOR
    ensures Head(f, entries) <= Encode(f, entries) && Head(f, entries) + BodyBytes(f) <= Encode(f, entries)
  {
  }

  /** `stomp_write`. `entries` is the order in which the header table is visited. */
  method Write(conn: Socket, f: Frame) returns (rc: AprStatus, entries: seq<Entry>)
    requires Addressable(f)
    modifies conn`sent, conn`log
    ensures conn.log == old(conn.log).Sent(rc)
    ensures Order(f, entries)
    ensures Wrote(rc, old(conn.sent), conn.sent, Encode(f, entries))
    ensures conn.steady ==> rc == Success
  {
    entries := [];
    if f.headers.Some? {
      entries := HashEntries(f.headers.value);
    }
    ghost var s0, full := conn.sent, Encode(f, entries);
    ghost var d1 := Head(f, entries);
    ghost var d2 := d1 + BodyBytes(f);
    EncodePrefixes(f, entries);

    rc := WriteHead(conn, f, entries);
    if rc != Success {
      WroteStopped(rc, s0, conn.sent, d1, full);
      return;
    }
    ghost var s1 := conn.sent;
    if f.body.Some? {
      rc := WriteBody(conn, f);
    }
    WroteMore(rc, s0, s1, conn.sent, d1, BodyBytes(f));
    if rc != Success {
      WroteStopped(rc, s0, conn.sent, d2, full);
      return;
    }
    ghost var s2 := conn.sent;
    rc := WriteBuffer(conn, TERMINATOR);
    WroteMore(rc, s0, s2, conn.sent, d2, TERMINATOR);
  }

  // ----- Reading -----

  /** Bytes only move from the front of `inbound` to the end of `received`. */
  predicate Conserved(received: string, inbound: string, received': string, inbound': string) {
    received <= received' && received + inbound == received' + inbound'
  }

  lemma ConservedTwice(r0: string, i0: string, r1: string, i1: string, r2: string, i2: string)
    requires Conserved(r0, i0, r1, i1) && Conserved(r1, i1, r2, i2)
    ensures Conserved(r0, i0, r2, i2)
  {
  }

  lemma ReceivedIsConserved(r0: string, i0: string, data: string, i1: string)
    requires i0 == data + i1
    ensures Conserved(r0, i0, r0 + data, i1)
  {
    Assoc(r0, data, i1);
  }

  /** A failure is what the last receive reported, or a general one for a broken protocol. */
  predicate FailsAs(rc: AprStatus, reported: AprStatus, broken: bool) {
    rc == reported || (rc == General && broken)
  }

  /** No receive but the last one failed, and the result is its result unless the protocol is broken. */
  predicate Reports(rc: AprStatus, before: Log, after: Log, broken: bool) {
    after == before.Received(after.lastRecv) && FailsAs(rc, after.lastRecv, broken)
  }

  /** A receive into one byte. */
  method RecvByte(conn: Socket, ghost received: string, ghost s: string) returns (rc: AprStatus, bytes: string)
    requires Conserved(received, s, conn.received, conn.inbound)
    modifies conn`inbound, conn`received, conn`log
    ensures Conserved(received, s, conn.received, conn.inbound)
    ensures conn.received == old(conn.received) + bytes
    ensures if bytes == "" then conn.inbound == old(conn.inbound) && rc != Success
            else old(conn.inbound) != "" && bytes == [old(conn.inbound)[0]] && conn.inbound == old(conn.inbound)[1..]
    ensures conn.log == old(conn.log).Received(rc)
    ensures conn.steady ==> (rc == Success <==> old(conn.inbound) != "") && (rc == Success <==> bytes != "")
  {
    ghost var had, left := conn.received, conn.inbound;
    rc, bytes := conn.Recv(1);
    ReceivedIsConserved(had, left, bytes, conn.inbound);
    ConservedTwice(received, s, had, left, conn.received, conn.inbound);
  }

  /** A receive of one byte into the block list; `bytes` is what is now behind `i - 1`. */
  method RecvInto(conn: Socket, list: BlockList) returns (rc: AprStatus, bytes: string)
    requires list.Valid() && list.i < BLOCK_SIZE && conn !in list.Repr
    modifies conn`inbound, conn`received, conn`log, list.Repr
    ensures list.Valid() && list.Repr == old(list.Repr) && conn.log == old(conn.log).Received(rc)
    ensures Conserved(old(conn.received), old(conn.inbound), conn.received, conn.inbound)
    ensures rc == Success ==>
              && |bytes| == 1 && bytes + conn.inbound == old(conn.inbound)
              && list.contents == old(list.contents) + bytes && 0 < list.i
              && list.contents + conn.inbound == old(list.contents) + old(conn.inbound)
    ensures conn.steady && rc != Success ==> old(conn.inbound) == "" == conn.inbound
  {
    rc, bytes := RecvByte(conn, conn.received, conn.inbound);
    if rc == Success {
      Assoc(list.contents, bytes, conn.inbound);
      list.Store(bytes[0]);
    }
  }

  /** What the line loop has collected when it meets LF, NUL or a failing socket. */
  lemma LineSoFar(s: string, text: string, tail: string)
    requires s == text + tail && PlainCommand(text)
    ensures tail == "" ==> TakeLine(s) == NoLine
    ensures tail != "" && tail[0] == '\n' ==> TakeLine(s) == Line(text, tail[1..])
    ensures tail != "" && tail[0] == '\0' ==> TakeLine(s) == NulFirst(tail[1..])
  {
    TakeLineStops(text, tail);
  }

  /** The loop of `stomp_read_line`: bytes up to the first LF, which becomes a NUL. */
  method CollectLine(conn: Socket) returns (rc: AprStatus, list: BlockList)
    modifies conn`inbound, conn`received, conn`log
    ensures list.Valid() && fresh(list.Repr)
    ensures Conserved(old(conn.received), old(conn.inbound), conn.received, conn.inbound)
    ensures rc == Success ==>
              var n := |list.contents| - 1;
              && 0 < list.i && 0 <= n && list.contents[n] == '\0'
              && TakeLine(old(conn.inbound)) == Line(list.contents[..n], conn.inbound)
    ensures Reports(rc, old(conn.log), conn.log, TakeLine(old(conn.inbound)) == NulFirst(conn.inbound))
    ensures conn.steady ==>
              match TakeLine(old(conn.inbound)) {
                case Line(_, _) => rc == Success
                case NulFirst(rest) => rc == General && conn.inbound == rest
                case NoLine => rc != Success && conn.inbound == ""
              }
  {
    list := new BlockList();
    ghost var s, received := conn.inbound, conn.received;
    while true
      invariant list.Valid() && fresh(list.Repr) && list.i < BLOCK_SIZE
      invariant s == list.contents + conn.inbound && PlainCommand(list.contents)
      invariant Conserved(received, s, conn.received, conn.inbound)
      invariant conn.log == old(conn.log).(lastRecv := conn.log.lastRecv)
      decreases |conn.inbound|
    {
      ghost var text, tail := list.contents, conn.inbound;
      LineSoFar(s, text, tail);
      var bytes;
      rc, bytes := RecvInto(conn, list);
      if rc != Success {
        return;
      }
      assert bytes[0] == tail[0] && conn.inbound == tail[1..];
      if bytes[0] == '\n' {
        list.ReplaceLast('\0');
        assert list.contents == text + "\0";
        return;
      } else if bytes[0] == '\0' {
        rc := General;
        return;
      }
      list.Grow();
    }
  }

  /**
   `stomp_read_line`. On success `data` holds the bytes before the first LF and a NUL;
   over a steady socket it fails exactly when a NUL or the end of input comes first.
   */
  method ReadLine(conn: Socket) returns (rc: AprStatus, data: array?<char>, length: nat)
    modifies conn`inbound, conn`received, conn`log
    ensures Conserved(old(conn.received), old(conn.inbound), conn.received, conn.inbound)
    ensures rc == Success ==>
              && data != null && fresh(data) && data.Length == length + 1 && data[length] == '\0'
              && TakeLine(old(conn.inbound)) == Line(data[..length], conn.inbound)
    ensures Reports(rc, old(conn.log), conn.log, TakeLine(old(conn.inbound)) == NulFirst(conn.inbound))
    ensures conn.steady ==>
              match TakeLine(old(conn.inbound)) {
                case Line(_, _) => rc == Success
                case NulFirst(rest) => rc == General && conn.inbound == rest
                case NoLine => rc != Success && conn.inbound == ""
              }
  {
    data, length := null, 0;
    var list;
    rc, list := CollectLine(conn);
    if rc != Success {
      return;
    }
    data := list.Flatten();
    length := list.bytesRead - 1;
    assert data[..][..length] == data[..length];
  }

  lemma {:induction false} TextWithoutNul(s: string, stray: Option<char>)
    requires '\0' !in s
    ensures TakeText(s, stray) == BadText("", false)
  {
    if s == "" {
    } else {
      TextWithoutNul(s[1..], stray);
    }
  }

  /** What the text loop has collected when it meets a NUL or a failing socket. */
  lemma TextSoFar(s: string, text: string, tail: string, stray: Option<char>)
    requires s == text + tail && '\0' !in text
    ensures tail == "" ==> TakeText(s, stray) == BadText("", false)
    ensures tail != "" && tail[0] == '\0' ==>
              (TakeText(s, stray) ==
               match stray {
                 case Some(c) => if c == '\n' then Text(text + "\0", tail[1..]) else BadText(tail[1..], true)
                 case None =>
                   if |tail| == 1 then Dangling
                   else if tail[1] == '\n' then Text(text + "\0", tail[2..])
                   else BadText(tail[2..], true)
               })
  {
    if tail == "" {
      TextWithoutNul(text, stray);
      assert text + tail == text;
    } else if tail[0] == '\0' {
      assert tail == "\0" + tail[1..];
      Assoc(text, "\0", tail[1..]);
      TakeTextStops(text, tail[1..], stray);
      assert |tail| > 1 ==> tail[1..][1..] == tail[2..];
    }
  }

  /** The loop of `stomp_read_buffer`: bytes up to and including the first NUL. */
  method CollectText(conn: Socket) returns (rc: AprStatus, list: BlockList)
    modifies conn`inbound, conn`received, conn`log
    ensures list.Valid() && fresh(list.Repr)
    ensures Conserved(old(conn.received), old(conn.inbound), conn.received, conn.inbound)
    ensures rc == Success ==>
              var n := |list.contents| - 1;
              && 0 < list.i && 0 <= n && list.contents[n] == '\0' && '\0' !in list.contents[..n]
              && old(conn.inbound) == list.contents + conn.inbound
    ensures Reports(rc, old(conn.log), conn.log, false)
    ensures conn.steady && rc != Success ==> '\0' !in old(conn.inbound) && conn.inbound == ""
  {
    list := new BlockList();
    ghost var s, received := conn.inbound, conn.received;
    while true
      invariant list.Valid() && fresh(list.Repr) && list.i < BLOCK_SIZE
      invariant s == list.contents + conn.inbound && '\0' !in list.contents
      invariant Conserved(received, s, conn.received, conn.inbound)
      invariant conn.log == old(conn.log).(lastRecv := conn.log.lastRecv)
      decreases |conn.inbound|
    {
      ghost var text := list.contents;
      var bytes;
      rc, bytes := RecvInto(conn, list);
      if rc != Success {
        assert conn.steady ==> s == text + "" == text;
        return;
      }
      if bytes[0] == '\0' {
        assert list.contents[..|text|] == text;
        return;
      }
      list.Grow();
    }
  }

  /** The check for LF behind the NUL, on a byte that keeps the content `unset` if nothing comes. */
  method ExpectNewline(conn: Socket, unset: char, ghost s: string, ghost text: string, ghost tail: string,
                       ghost received: string)
    returns (rc: AprStatus, ghost stray: Option<char>)
    requires s == text + tail && '\0' !in text
    requires tail != "" && tail[0] == '\0' && conn.inbound == tail[1..]
    requires Conserved(received, s, conn.received, conn.inbound)
    modifies conn`inbound, conn`received, conn`log
    ensures Conserved(received, s, conn.received, conn.inbound)
    ensures rc == Success ==> TakeText(s, stray) == Text(text + "\0", conn.inbound)
    ensures rc != Success ==> rc == General && TakeText(s, stray) == BadText(conn.inbound, true)
    ensures conn.log == old(conn.log).Received(conn.log.lastRecv)
    ensures stray == if conn.received == old(conn.received) then Some(unset) else None
    ensures conn.steady ==>
              match TakeText(s, None) {
                case Text(_, _) => rc == Success && stray == None
                case BadText(rest, _) => rc == General && conn.inbound == rest
                case Dangling => stray.Some? && conn.inbound == ""
              }
  {
    var endline := unset;
    var _, bytes := RecvByte(conn, received, s);
    stray := if bytes == "" then Some(endline) else None;
    if bytes != "" {
      endline := bytes[0];
      assert endline == tail[1] && conn.inbound == tail[2..];
    }
    TextSoFar(s, text, tail, stray);
    TextSoFar(s, text, tail, None);
    rc := if endline != '\n' then General else Success;
  }

  /**
   `stomp_read_buffer`. On success `data` holds the bytes up to and including the first
   NUL. `stray` is the content of the unset end byte when its receive, whose result the
   code ignores, delivered nothing.
   */
  method ReadBuffer(conn: Socket) returns (rc: AprStatus, data: array?<char>, length: nat, ghost stray: Option<char>)
    modifies conn`inbound, conn`received, conn`log
    ensures Conserved(old(conn.received), old(conn.inbound), conn.received, conn.inbound)
    ensures rc == Success ==>
              && data != null && fresh(data) && data.Length == length
              && TakeText(old(conn.inbound), stray) == Text(data[..], conn.inbound)
    ensures conn.log == old(conn.log).Received(conn.log.lastRecv)
    ensures rc != Success ==>
              FailsAs(rc, conn.log.lastRecv, TakeText(old(conn.inbound), stray) == BadText(conn.inbound, true))
    ensures conn.steady ==>
              match TakeText(old(conn.inbound), None) {
                case Text(_, _) => rc == Success && stray == None
                case BadText(rest, malformed) => rc != Success && conn.inbound == rest && (malformed ==> rc == General)
                case Dangling => stray.Some? && conn.inbound == ""
              }
  {
    data, length, stray := null, 0, None;
    ghost var s, received := conn.inbound, conn.received;
    var list;
    rc, list := CollectText(conn);
    if rc != Success {
      if conn.steady {
        TextWithoutNul(s, None);
      }
      return;
    }
    ghost var text := list.contents[..|list.contents| - 1];
    assert list.contents == text + "\0";
    Assoc(text, "\0", conn.inbound);
    var endline: char := *;
    rc, stray := ExpectNewline(conn, endline, s, text, "\0" + conn.inbound, received);
    if rc != Success {
      return;
    }
    length := list.bytesRead;
    data := list.Flatten();
  }

  /** The header lines of `stomp_read`: each is cut at its first colon and stored. */
  method ReadHeaders(conn: Socket) returns (rc: AprStatus, headers: Table)
    modifies conn`inbound, conn`received, conn`log
    ensures Conserved(old(conn.received), old(conn.inbound), conn.received, conn.inbound)
    ensures rc == Success ==> TakeHeaders(old(conn.inbound), map[]) == Headers(headers, conn.inbound)
    ensures Reports(rc, old(conn.log), conn.log,
                    TakeHeaders(old(conn.inbound), map[]) == BadHeaders(conn.inbound, true))
    ensures conn.steady ==>
              match TakeHeaders(old(conn.inbound), map[]) {
                case Headers(_, _) => rc == Success
                case BadHeaders(rest, malformed) =>
                  rc != Success && conn.inbound == rest && (malformed ==> rc == General)
              }
  {
    headers := map[];
    ghost var s, received := conn.inbound, conn.received;
    while true
      invariant TakeHeaders(conn.inbound, headers) == TakeHeaders(s, map[])
      invariant Conserved(received, s, conn.received, conn.inbound)
      invariant conn.log == old(conn.log).(lastRecv := conn.log.lastRecv)
      decreases |conn.inbound|
    {
      var p, length;
      rc, p, length := ReadLine(conn);
      if rc != Success || length == 0 {
        return;
      }
      ghost var text := p[..length];
      var colon := FindColon(p[..length]);
      if colon == None {
        rc := General;
        return;
      }
      p[colon.value] := '\0';
      var key, value := p[..colon.value], p[colon.value + 1..length];
      assert key == text[..colon.value] && value == text[colon.value + 1..];
      headers := headers[key := value];
    }
  }

  /** What the two receives of a counted body delivered decides. */
  lemma CountedOutcome(s: string, n: nat, cut: nat, body: string, end: string, rest: string)
    requires body != "" && |body| == Min(n, Min(|s|, cut)) && 1 <= |end| <= 2 && s == body + (end + rest)
    ensures |end| == 2 ==>
              TakeCounted(s, n, cut) ==
              if end[0] == '\0' && end[1] == '\n' then Text(body, rest) else BadText(rest, true)
    ensures |end| == 1 && rest == "" ==> TakeCounted(s, n, cut) == BadText(rest, true)
    ensures |end| == 1 && rest != "" ==> HalfTerminator(s, n, cut, rest)
  {
    var k := |body|;
    assert s[..k] == body && s[k + |end|..] == rest;
    if |end| == 2 {
      assert s[k..k + 2] == end == [end[0], end[1]];
    }
  }

  /** A body with content-length: one receive for the body, one for NUL LF. */
  method ReadCounted(conn: Socket, bodyLength: nat) returns (rc: AprStatus, body: string, ghost cut: nat)
    modifies conn`inbound, conn`received, conn`log
    ensures Conserved(old(conn.received), old(conn.inbound), conn.received, conn.inbound)
    ensures rc == Success ==> TakeCounted(old(conn.inbound), bodyLength, cut) == Text(body, conn.inbound)
    ensures Reports(rc, old(conn.log), conn.log,
                    || TakeCounted(old(conn.inbound), bodyLength, cut) == BadText(conn.inbound, true)
                    || HalfTerminator(old(conn.inbound), bodyLength, cut, conn.inbound))
    ensures conn.steady ==> cut == |old(conn.inbound)|
    ensures conn.steady ==>
              match TakeCounted(old(conn.inbound), bodyLength, cut) {
                case Text(_, _) => rc == Success
                case BadText(rest, malformed) => rc != Success && conn.inbound == rest && (malformed ==> rc == General)
                case Dangling => false
              }
  {
    ghost var s, received := conn.inbound, conn.received;
    rc, body := conn.Recv(bodyLength);
    cut := if conn.steady then |s| else |body|;
    ReceivedIsConserved(received, s, body, conn.inbound);
    if rc != Success {
      return;
    }
    ghost var left, had := conn.inbound, conn.received;
    assert s[..|body|] == body && s[|body|..] == left;
    var end;
    rc, end := conn.Recv(2);
    ReceivedIsConserved(had, left, end, conn.inbound);
    ConservedTwice(received, s, had, left, conn.received, conn.inbound);
    if rc != Success {
      return;
    }
    CountedOutcome(s, bodyLength, cut, body, end, conn.inbound);
    if |end| != 2 || end[0] != '\0' || end[1] != '\n' {
      rc := General;
    }
  }

  /** The body part of `stomp_read`. */
  method ReadBody(conn: Socket, headers: Table) returns (rc: AprStatus, body: string, ghost d: Delivery)
    modifies conn`inbound, conn`received, conn`log
    ensures Conserved(old(conn.received), old(conn.inbound), conn.received, conn.inbound)
    ensures rc == Success ==> TakeBody(old(conn.inbound), headers, d) == Text(body, conn.inbound)
    ensures conn.log == old(conn.log).Received(conn.log.lastRecv)
    ensures rc != Success || "content-length" in headers ==>
              FailsAs(rc, conn.log.lastRecv, BadBody(old(conn.inbound), headers, d, conn.inbound))
    ensures conn.steady ==>
              match TakeBody(old(conn.inbound), headers, Full(old(conn.inbound))) {
                case Text(_, _) => rc == Success && d == Full(old(conn.inbound))
                case BadText(rest, malformed) => rc != Success && conn.inbound == rest && (malformed ==> rc == General)
                case Dangling => conn.inbound == ""
              }
  {
    body, d := "", Full(conn.inbound);
    if CONTENT_LENGTH in headers {
      ghost var cut;
      rc, body, cut := ReadCounted(conn, AsSize(Atoi64(headers[CONTENT_LENGTH])));
      d := Delivery(cut, None);
    } else {
      var p, length;
      ghost var stray;
      rc, p, length, stray := ReadBuffer(conn);
      d := d.(stray := stray);
      if rc == Success {
        body := p[..];
      }
    }
  }

  /** What is behind a frame's head is no longer than the stream, so a full service stays full. */
  lemma FullFromTheFront(s2: string, s: string, table: Table)
    requires |s2| <= |s|
    ensures TakeBody(s2, table, Full(s)) == TakeBody(s2, table, Full(s2))
  {
  }

  /**
   `stomp_read`. `d` says how the socket served the receives, and what is read is what
   `ParseUnder` reads under that service; a steady socket serves in full.
   */
  method Read(conn: Socket) returns (rc: AprStatus, frame: Option<Frame>, ghost d: Delivery)
    modifies conn`inbound, conn`received, conn`log
    ensures Conserved(old(conn.received), old(conn.inbound), conn.received, conn.inbound)
    ensures rc == Success <==> frame.Some?
    ensures frame.Some? ==> ParseUnder(old(conn.inbound), d) == Parsed(frame.value, conn.inbound)
    ensures conn.log == old(conn.log).Received(conn.log.lastRecv)
    ensures frame == None || Counted(frame.value) ==>
              FailsAs(rc, conn.log.lastRecv, BadBytes(old(conn.inbound), d, conn.inbound))
    ensures conn.steady ==>
              match Parse(old(conn.inbound)) {
                case Parsed(f, rest) => frame == Some(f) && conn.inbound == rest
                case Rejected(rest, malformed) => frame == None && conn.inbound == rest && (malformed ==> rc == General)
                case Undefined => conn.inbound == ""
              }
  {
    frame, d := None, Full(conn.inbound);
    ghost var s, received := conn.inbound, conn.received;
    var p, length;
    rc, p, length := ReadLine(conn);
    if rc != Success {
      return;
    }
    var command := p[..length];
    ghost var s1, received1 := conn.inbound, conn.received;
    var headers;
    rc, headers := ReadHeaders(conn);
    ConservedTwice(received, s, received1, s1, conn.received, conn.inbound);
    if rc != Success {
      return;
    }
    ghost var s2, received2 := conn.inbound, conn.received;
    var body;
    rc, body, d := ReadBody(conn, headers);
    ConservedTwice(received, s, received2, s2, conn.received, conn.inbound);
    if rc == Success {
      frame := Some(Frame(command, Some(headers), Some(body), |body|));
    }
    if conn.steady {
      FullFromTheFront(s2, s, headers);
    }
  }

}
