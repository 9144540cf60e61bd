/**
 STOMP frames and the bytes that `stomp_write` puts on the wire for one.
 */
module Frames {
  import opened CValues

  type Table = map<string, string>
  type Entry = (string, string)

  /**
   `stomp_frame`. A NULL pointer is None; `body` is the memory that can be read
   through the body pointer, and `bodyLength` is a `size_t`.
   */
  datatype Frame = Frame(command: string, headers: Option<Table>, body: Option<string>, bodyLength: nat)

  const CONTENT_LENGTH := "content-length"
  const TERMINATOR := "\0\n"

  /** What a hash lookup returns. */
  function Lookup(table: Table, key: string): Option<string> {
    if key in table then Some(table[key]) else None
  }

  /** `apr_hash_set`: a NULL value removes the key. */
  function Put(table: Table, key: string, value: Option<string>): (t: Table)
    ensures Lookup(t, key) == value
    ensures forall k :: k != key ==> Lookup(t, k) == Lookup(table, k)
  {
    match value
    case Some(v) => table[key := v]
    case None => table - {key}
  }

  // ----- Header entries -----

  /** Storing entries into a table one after the other. */
  function Store(entries: seq<Entry>, table: Table): Table {
    if entries == [] then table
    else Store(entries[1..], table[entries[0].0 := entries[0].1])
  }

  /** An order in which `apr_hash_first`/`apr_hash_next` may visit a table. */
  ghost predicate Enumerates(entries: seq<Entry>, table: Table) {
    |entries| == |table| && Store(entries, map[]) == table
  }

  /** The value of the last entry for a key. */
  function LastValue(entries: seq<Entry>, key: string): Option<string> {
    if entries == [] then None
    else
      var e := entries[|entries| - 1];
      if e.0 == key then Some(e.1) else LastValue(entries[..|entries| - 1], key)
  }

  lemma {:induction false} StoreSnoc(entries: seq<Entry>, e: Entry, table: Table)
    ensures Store(entries + [e], table) == Store(entries, table)[e.0 := e.1]
  {
    if entries == [] {
      assert (entries + [e])[1..] == [];
    } else {
      assert (entries + [e])[1..] == entries[1..] + [e];
      StoreSnoc(entries[1..], e, table[entries[0].0 := entries[0].1]);
    }
  }

  /** Every table can be enumerated. */
  lemma {:induction false} EnumerationExists(table: Table) returns (entries: seq<Entry>)
    ensures Enumerates(entries, table)
    decreases |table|
  {
    if table == map[] {
      entries := [];
    } else {
      var k :| k in table;
      var rest := table - {k};
      assert table.Keys == rest.Keys + {k};
      entries := EnumerationExists(rest);
      StoreSnoc(entries, (k, table[k]), map[]);
      assert rest[k := table[k]] == table;
      entries := entries + [(k, table[k])];
    }
  }

  /** Storing entries in turn means that the last entry of a repeated key wins. */
  lemma {:induction false} StoreKeepsLast(entries: seq<Entry>, key: string)
    ensures Lookup(Store(entries, map[]), key) == LastValue(entries, key)
  {
    if entries == [] {
    } else {
      var n := |entries| - 1;
      assert entries == entries[..n] + [entries[n]];
      StoreSnoc(entries[..n], entries[n], map[]);
      StoreKeepsLast(entries[..n], key);
    }
  }

  function HeaderLine(e: Entry): string {
    e.0 + ":" + e.1 + "\n"
  }

  function HeaderLines(entries: seq<Entry>): string {
    if entries == [] then "" else HeaderLine(entries[0]) + HeaderLines(entries[1..])
  }

  lemma {:induction false} HeaderLinesSplit(a: seq<Entry>, b: seq<Entry>)
    ensures HeaderLines(a + b) == HeaderLines(a) + HeaderLines(b)
  {
    if a == [] {
      assert a + b == b;
    } else {
      assert (a + b)[1..] == a[1..] + b;
      HeaderLinesSplit(a[1..], b);
    }
  }

  lemma HeaderLinesSnoc(entries: seq<Entry>, e: Entry)
    ensures HeaderLines(entries + [e]) == HeaderLines(entries) + HeaderLine(e)
  {
    HeaderLinesSplit(entries, [e]);
    assert HeaderLines([e]) == HeaderLine(e) + "";
  }

  // ----- The encoder -----

  /** The body length as the `int` that the writer computes with. */
  function IntLength(f: Frame): int {
    AsInt(f.bodyLength)
  }

  /** The body bytes written: a positive length counts bytes, otherwise the text and its NUL. */
  function BodyBytes(f: Frame): string {
    match f.body
    case None => ""
    case Some(b) =>
      if IntLength(f) > 0 then b[..Min(IntLength(f), |b|)] else CText(b) + "\0"
  }

  /** The number that the writer prints as content-length. */
  function PrintedLength(f: Frame): int {
    if IntLength(f) <= 0 && f.body.Some? then AsInt(|CText(f.body.value)| + 1) else IntLength(f)
  }

  function LengthEntry(f: Frame): Entry {
    (CONTENT_LENGTH, Itoa(PrintedLength(f)))
  }

  /** The header part; a frame that has a table always gets a content-length line. */
  function HeaderBytes(f: Frame, entries: seq<Entry>): string {
    if f.headers.Some? then HeaderLines(entries + [LengthEntry(f)]) else ""
  }

  /** The bytes of a frame whose header table is visited in the order of `entries`. */
  function Encode(f: Frame, entries: seq<Entry>): string {
    f.command + "\n" + HeaderBytes(f, entries) + "\n" + BodyBytes(f) + TERMINATOR
  }

  ghost predicate Order(f: Frame, entries: seq<Entry>) {
    match f.headers
    case None => entries == []
    case Some(table) => Enumerates(entries, table)
  }

  /** The memory behind a body pointer is as long as the writer is going to read. */
  predicate AddressableBody(body: Option<string>, size: nat) {
    size <= SIZE_MAX &&
    match body
    case None => true
    case Some(b) =>
      if AsInt(size) > 0 then AsInt(size) <= |b| else '\0' in b && |CText(b)| < INT_MAX
  }

  /** What the writer demands of its caller. */
  predicate Addressable(f: Frame) {
    AddressableBody(f.body, f.bodyLength)
  }

  // ----- Well-formed text -----

  predicate PlainCommand(s: string) {
    '\n' !in s && '\0' !in s
  }

  predicate PlainKey(s: string) {
    '\n' !in s && '\0' !in s && ':' !in s
  }

  predicate PlainValue(s: string) {
    '\n' !in s && '\0' !in s
  }

  predicate PlainTable(t: Table) {
    forall k :: k in t ==> PlainKey(k) && PlainValue(t[k])
  }

  predicate PlainEntries(entries: seq<Entry>) {
    forall i :: 0 <= i < |entries| ==> PlainKey(entries[i].0) && PlainValue(entries[i].1)
  }

  /** Command and headers can be printed without escaping. */
  predicate WellFormed(f: Frame) {
    PlainCommand(f.command) && (f.headers.Some? ==> PlainTable(f.headers.value))
  }

  lemma {:induction false} StoreSize(entries: seq<Entry>)
    ensures |Store(entries, map[])| <= |entries|
  {
    if entries == [] {
    } else {
      var n := |entries| - 1;
      var rest := Store(entries[..n], map[]);
      assert entries == entries[..n] + [entries[n]];
      StoreSnoc(entries[..n], entries[n], map[]);
      StoreSize(entries[..n]);
      assert Store(entries, map[]).Keys == rest.Keys + {entries[n].0};
    }
  }

  /** Storing a duplicate-free enumeration never overwrites, so each entry is in the table. */
  lemma {:induction false} EntriesAreStored(entries: seq<Entry>, table: Table)
    requires Enumerates(entries, table)
    ensures forall i :: 0 <= i < |entries| ==> entries[i].0 in table && table[entries[i].0] == entries[i].1
  {
    if entries == [] {
    } else {
      var n := |entries| - 1;
      var rest := Store(entries[..n], map[]);
      assert entries == entries[..n] + [entries[n]];
      StoreSnoc(entries[..n], entries[n], map[]);
      StoreSize(entries[..n]);
      var k := entries[n].0;
      assert table.Keys == rest.Keys + {k};
      EntriesAreStored(entries[..n], rest);
    }
  }

  lemma PlainEnumeration(f: Frame, entries: seq<Entry>)
    requires WellFormed(f) && Order(f, entries)
    ensures PlainEntries(entries)
  {
    if f.headers.Some? {
      EntriesAreStored(entries, f.headers.value);
    }
  }

  /** The content-length line, read back as a decimal, is the number of body bytes that follow. */
  lemma PrintedLengthIsBodySize(f: Frame)
    requires Addressable(f) && f.body.Some?
    ensures Atoi64(LengthEntry(f).1) == |BodyBytes(f)| && 1 <= |BodyBytes(f)| <= INT_MAX
  {
    DecimalRoundTrip(PrintedLength(f));
  }

  // ----- What the caller means -----

  /** A length other than 0 and -1 counts the body; those two leave it to the terminating NUL. */
  predicate Specified(size: nat) {
    size != 0 && size != SIZE_MAX
  }

  /** A specified length does not exceed the body's memory. */
  predicate Honest(f: Frame) {
    f.body.Some? && Specified(f.bodyLength) ==> f.bodyLength <= |f.body.value|
  }

  /** The body that the caller means, whatever the writer makes of its length. */
  function MeantBody(f: Frame): string
    requires Honest(f)
  {
    match f.body
    case None => ""
    case Some(b) => if Specified(f.bodyLength) then b[..f.bodyLength] else CText(b) + "\0"
  }

  /** The writer keeps the meant body if and only if a specified length fits in an `int`. */
  lemma BodyIsWhole(f: Frame)
    requires Addressable(f) && Honest(f)
    ensures BodyBytes(f) == MeantBody(f) <==> (f.body.Some? && Specified(f.bodyLength) ==> f.bodyLength <= INT_MAX)
  {
    if f.body.Some? {
      PrintedLengthIsBodySize(f);
      var b, n := f.body.value, f.bodyLength;
      if Specified(n) {
        assert |MeantBody(f)| == n;
        assert n <= INT_MAX ==> BodyBytes(f) == b[..n];
      }
    }
  }
}
