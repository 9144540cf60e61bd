/** src/stomp_message.c: the message object that an application formats and sends. */
module Message {
  import opened CValues
  import opened Frames
  import opened Deliveries

  function Zeros(n: nat): (s: string)
    ensures |s| == n && forall i :: 0 <= i < n ==> s[i] == '\0'
  {
    seq(n, _ => '\0')
  }

  /** The text that `strncpy` takes from `data`: up to `len` bytes, ending before a NUL. */
  function TextWithin(data: string, len: nat): (t: string)
    ensures |t| <= len && t <= data && '\0' !in t
  {
    CText(data[..Min(len, |data|)])
  }

  /** `strlen` of a buffer that holds a NUL. */
  method Strlen(a: array<char>) returns (n: nat)
    requires '\0' in a[..]
    ensures n == |CText(a[..])|
  {
    n := 0;
    while a[n] != '\0'
      invariant n < a.Length && '\0' !in a[..n] && '\0' in a[n..]
      decreases a.Length - n
    {
      n := n + 1;
    }
    assert a[..] == a[..n] + "\0" + a[n + 1..];
    CTextTerminated(a[..n], a[n + 1..]);
  }

  /** The text ends at `len` or in front of a NUL, and not earlier. */
  lemma TextWithinStops(data: string, len: nat)
    requires len <= |data| || '\0' in data
    ensures var t := TextWithin(data, len);
            && |t| <= len && (|t| < len ==> |t| < |data| && data[|t|] == '\0')
            && (forall i :: 0 <= i < |t| ==> data[i] == t[i] != '\0')
  {
    var d := data[..Min(len, |data|)];
    var t := CText(d);
    forall i | 0 <= i < |t| ensures data[i] == t[i] != '\0' {
      assert t[i] == d[i] && t[i] in t;
    }
    assert |data| <= len ==> d == data;
  }

  /** `strncpy` into a buffer of zeros. */
  method Strncpy(dst: array<char>, data: string, len: nat)
    requires len < dst.Length && dst[..] == Zeros(dst.Length)
    requires len <= |data| || '\0' in data
    modifies dst
    ensures var t := TextWithin(data, len); dst[..] == t + Zeros(dst.Length - |t|)
  {
    var k := 0;
    ghost var t := TextWithin(data, len);
    TextWithinStops(data, len);
    while k < len && data[k] != '\0'
      invariant k <= |t|
      invariant dst[..] == t[..k] + Zeros(dst.Length - k)
    {
      dst[k] := data[k];
      k := k + 1;
    }
  }

  /** `stomp_message_t`, without its memory pool. */
  class Message {
    var body: array?<char>
    var size: nat

    /** `stomp_message_create`: no body, and -1 stored into a `size_t`. */
    constructor ()
      ensures body == null && size == SIZE_MAX
    {
      body, size := null, SIZE_MAX;
    }

    /** The bytes behind the body pointer. */
    function Bytes(): Option<string>
      reads this, body
    {
      if body == null then None else Some(body[..])
    }

    /** The message is a C string with all its bytes counted, the terminating NUL included. */
    ghost predicate Holds(text: string)
      reads this, body
    {
      && body != null && '\0' !in text && |text| < body.Length
      && body[..] == text + Zeros(body.Length - |text|) && size == |text| + 1
    }

    /** `stomp_message_format`. */
    method Format(data: string, len: nat)
      requires len <= |data| || '\0' in data
      modifies this
      ensures body != null && fresh(body) && body.Length == len + 1
      ensures Holds(TextWithin(data, len))
    {
      var a := new char[len + 1](_ => '\0');
      assert a[..] == Zeros(a.Length);
      Strncpy(a, data, len);
      ghost var t := TextWithin(data, len);
      assert a[..] == t + "\0" + Zeros(a.Length - |t| - 1);
      CTextTerminated(t, Zeros(a.Length - |t| - 1));
      assert a[..][|t|] == '\0';
      var n := Strlen(a);
      body, size := a, n + 1;
    }
  }

  /** What a formatted message contributes to a frame. */
  lemma FormattedBody(f: Frame, text: string)
    requires '\0' !in text && |text| < INT_MAX
    requires f.bodyLength == |text| + 1
    requires f.body.Some? && text + "\0" <= f.body.value
    ensures Addressable(f) && BodyBytes(f) == text + "\0" && !Severable(BodyBytes(f))
  {
    TextIsNotSeverable(text);
  }
}
