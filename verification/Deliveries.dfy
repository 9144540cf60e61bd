/**
 What the same bytes mean over different sockets: how a read that full receives would
 complete can end when the body comes in short or the byte behind a NUL does not come.
 */
module Deliveries {
  import opened CValues
  import opened Frames
  import opened Wire
  import opened RoundTrip
  import opened Reading

  predicate TerminatorAt(b: string, i: nat) {
    i + 1 < |b| && b[i] == '\0' && b[i + 1] == '\n'
  }

  /** The body holds, behind its first byte, a NUL that is followed by LF. */
  ghost predicate Severable(b: string) {
    exists i :: 1 <= i && TerminatorAt(b, i)
  }

  /** A NUL-free text with its terminating NUL is never severable. */
  lemma TextIsNotSeverable(text: string)
    requires '\0' !in text
    ensures !Severable(text + "\0")
  {
    forall i | 1 <= i && i + 1 < |text + "\0"| ensures !TerminatorAt(text + "\0", i) {
      assert (text + "\0")[i] == text[i];
    }
  }

  // ----- One read under every service -----

  /** A counted body that was received in full is followed by its terminator. */
  lemma CountedLayout(s: string, n: nat, cut: nat)
    requires TakeCounted(s, n, cut).Text? && |s| <= cut
    ensures var r := TakeCounted(s, n, cut);
            r.data != "" && |r.data| == n && s == r.data + TERMINATOR + r.rest
  {
    var k := Min(n, |s|);
    assert s == s[..k] + s[k..k + 2] + s[k + 2..];
  }

  /** A body that was read up to its NUL. */
  lemma {:induction false} TextLayout(s: string) returns (text: string)
    requires TakeText(s, None).Text?
    ensures '\0' !in text && TakeText(s, None).data == text + "\0"
    ensures s == text + "\0" + ("\n" + TakeText(s, None).rest)
  {
    if s[0] == '\0' {
      text := "";
      assert s == "\0" + "\n" + s[2..];
    } else {
      var t := TextLayout(s[1..]);
      text := [s[0]] + t;
      assert s == [s[0]] + s[1..];
      Assoc([s[0]], t, "\0");
      Assoc([s[0]], t + "\0", "\n" + TakeText(s, None).rest);
    }
  }

  /** Under another service, a counted frame differs at most in its body. */
  lemma CountedUnderService(s: string, d: Delivery)
    requires Parse(s).Parsed? && Counted(Parse(s).frame)
    ensures var f := Parse(s).frame;
            f.body.Some? && f.body.value != "" &&
            ParseUnder(s, d) == Finish(f.command, f.headers.value,
                                       TakeCounted(f.body.value + TERMINATOR + Parse(s).rest, |f.body.value|, d.cut))
  {
    var block := TakeLine(s).rest;
    var table, body := TakeHeaders(block, map[]).table, TakeHeaders(block, map[]).rest;
    var _ := HeadersAreLocal(block, map[], "");
    CountedLayout(body, AsSize(Atoi64(table[CONTENT_LENGTH])), |s|);
  }

  /** Under another service, an uncounted frame differs at most in whether its last LF was read. */
  lemma TextUnderService(s: string, d: Delivery)
    requires Parse(s).Parsed? && !Counted(Parse(s).frame)
    ensures var Parsed(f, rest) := Parse(s);
            ParseUnder(s, d) ==
            match d.stray {
              case None => Parsed(f, rest)
              case Some(c) => if c == '\n' then Parsed(f, "\n" + rest) else Rejected("\n" + rest, true)
            }
  {
    var body := TakeHeaders(TakeLine(s).rest, map[]).rest;
    var text := TextLayout(body);
    TakeTextStops(text, "\n" + Parse(s).rest, d.stray);
  }

  lemma CountedUnderCut(body: string, tail: string, cut: nat)
    requires body != "" && !(1 <= cut && TerminatorAt(body, cut))
    ensures var r := TakeCounted(body + TERMINATOR + tail, |body|, cut);
            r.Text? ==> r == Text(body, tail)
  {
    var s := body + TERMINATOR + tail;
    if cut >= |body| {
      TakeCountedExact(body, tail, cut);
    } else if cut > 0 {
      assert s[cut] == body[cut];
      assert s[cut + 1] == if cut + 1 < |body| then body[cut + 1] else '\0';
      assert s[cut..cut + 2][0] == s[cut] && s[cut..cut + 2][1] == s[cut + 1];
    }
  }

  lemma CountedSevered(body: string, tail: string, cut: nat)
    requires 1 <= cut && TerminatorAt(body, cut)
    ensures TakeCounted(body + TERMINATOR + tail, |body|, cut) == Text(body[..cut], body[cut + 2..] + TERMINATOR + tail)
  {
    var s := body + TERMINATOR + tail;
    assert s[..cut] == body[..cut];
    assert s[cut..cut + 2] == TERMINATOR;
    assert s[cut + 2..] == body[cut + 2..] + TERMINATOR + tail;
  }

  // ----- Silent truncation -----

  /**
   A read that succeeds under some service is the full read, unless a severable body was
   cut or an unset byte happened to be LF.
   */
  lemma SuccessIsFull(s: string, d: Delivery)
    requires Parse(s).Parsed? && ParseUnder(s, d).Parsed?
    requires Counted(Parse(s).frame) && Parse(s).frame.body.Some? ==> !Severable(Parse(s).frame.body.value)
    requires !Counted(Parse(s).frame) ==> d.stray != Some('\n')
    ensures ParseUnder(s, d) == Parse(s)
  {
    var f := Parse(s).frame;
    if Counted(f) {
      CountedUnderService(s, d);
      CountedUnderCut(f.body.value, Parse(s).rest, d.cut);
    } else {
      TextUnderService(s, d);
    }
  }

  /**
   Silent truncation, exactly: for every stream that starts with a counted frame, whoever
   wrote it, some pattern of short receives makes the reader accept something else if and
   only if the body is severable.
   */
  lemma SilentTruncation(s: string)
    requires Parse(s).Parsed? && Counted(Parse(s).frame)
    ensures var f := Parse(s).frame;
            f.body.Some? &&
            ((forall d :: ParseUnder(s, d).Parsed? ==> ParseUnder(s, d) == Parse(s)) <==> !Severable(f.body.value))
  {
    var f := Parse(s).frame;
    CountedUnderService(s, Full(s));
    var body := f.body.value;
    if Severable(body) {
      var i :| 1 <= i && TerminatorAt(body, i);
      var d := Delivery(i, None);
      CountedUnderService(s, d);
      CountedSevered(body, Parse(s).rest, i);
      assert ParseUnder(s, d).frame.bodyLength == i;
      ReadShape(s, Full(s));
    } else {
      forall d | ParseUnder(s, d).Parsed? ensures ParseUnder(s, d) == Parse(s) {
        SuccessIsFull(s, d);
      }
    }
  }

  // ----- Proper prefixes -----

  /** With `missing` bytes of the frame still to come, an unlucky socket can already complete it. */
  ghost predicate Premature(f: Frame, missing: nat) {
    if Counted(f) then
      f.body.Some? && exists i :: 1 <= i && TerminatorAt(f.body.value, i) && i + missing <= |f.body.value|
    else missing == 1
  }

  /** What is left unread by a success that is not the full read. */
  lemma LeftByEarlySuccess(s: string, d: Delivery)
    requires Parse(s).Parsed? && ParseUnder(s, d).Parsed? && ParseUnder(s, d) != Parse(s)
    ensures var f := Parse(s).frame;
            var left := |ParseUnder(s, d).rest| - |Parse(s).rest|;
            if Counted(f) then
              f.body.Some? && 1 <= d.cut && TerminatorAt(f.body.value, d.cut) && left == |f.body.value| - d.cut
            else left == 1 && d.stray == Some('\n')
  {
    var f := Parse(s).frame;
    if Counted(f) {
      CountedUnderService(s, d);
      if 1 <= d.cut && TerminatorAt(f.body.value, d.cut) {
        CountedSevered(f.body.value, Parse(s).rest, d.cut);
      } else {
        CountedUnderCut(f.body.value, Parse(s).rest, d.cut);
      }
    } else {
      TextUnderService(s, d);
    }
  }

  /** A success that leaves enough unread also happens on the shorter input. */
  lemma SuccessOnPrefix(s: string, d: Delivery, m: nat)
    requires ParseUnder(s, d).Parsed? && |s| - |ParseUnder(s, d).rest| <= m <= |s|
    ensures ParseUnder(s[..m], d).Parsed?
  {
    var r := ParseUnder(s, d).rest;
    var n := |s| - |r|;
    var _ := ReadIsLocal(s, d, d, "");
    var c := ReadIsLocal(s, d, d, s[n..m]);
    assert c == s[..n];
    assert c + s[n..m] == s[..m];
  }

  /** A success on a prefix is a success on the whole input that leaves at least the rest of it. */
  lemma SuccessOnWhole(s: string, d: Delivery, m: nat)
    requires m <= |s| && ParseUnder(s[..m], d).Parsed?
    ensures ParseUnder(s, d).Parsed? && |ParseUnder(s, d).rest| >= |s| - m
  {
    var r := ParseUnder(s[..m], d).rest;
    var c := ReadIsLocal(s[..m], d, d, r + s[m..]);
    Assoc(c, r, s[m..]);
    assert s[..m] + s[m..] == s;
  }

  lemma PrematureService(s: string, missing: nat) returns (d: Delivery)
    requires Parse(s).Parsed? && Premature(Parse(s).frame, missing)
    ensures ParseUnder(s, d).Parsed? && |ParseUnder(s, d).rest| >= |Parse(s).rest| + missing
  {
    var f := Parse(s).frame;
    if Counted(f) {
      var i :| 1 <= i && TerminatorAt(f.body.value, i) && i + missing <= |f.body.value|;
      d := Delivery(i, None);
      CountedUnderService(s, d);
      CountedSevered(f.body.value, Parse(s).rest, i);
    } else {
      d := Delivery(0, Some('\n'));
      TextUnderService(s, d);
    }
  }

  /**
   Unique decodability, exactly: a proper prefix of a frame's bytes is accepted under some
   service if and only if it reaches a terminator inside a counted body, or lacks only
   the final LF of an uncounted one.
   */
  lemma PrefixParses(s: string, m: nat)
    requires Parse(s).Parsed? && m < Used(s) <= |s|
    ensures (exists d :: ParseUnder(s[..m], d).Parsed?) <==> Premature(Parse(s).frame, Used(s) - m)
  {
    var f, missing := Parse(s).frame, Used(s) - m;
    if d :| ParseUnder(s[..m], d).Parsed? {
      SuccessOnWhole(s, d, m);
      LeftByEarlySuccess(s, d);
    }
    if Premature(f, missing) {
      var d := PrematureService(s, missing);
      SuccessOnPrefix(s, d, m);
    }
  }

  /** Over full receives no proper prefix `p` of the consumed bytes is a frame. */
  lemma NoPrefixParses(p: string, t: string)
    requires Parse(p + t).Parsed? && |Parse(p + t).rest| < |t|
    ensures !Parse(p).Parsed?
  {
    if Parse(p).Parsed? {
      PrefixStable(p, t);
    }
  }
}
