/**
 C-level values used throughout the model: fixed-width integer conversions, the
 decimal conversions `apr_itoa` and `apr_atoi64`, and C strings inside buffers.

 A Dafny `char` stands for one C `char`. No definition depends on how many
 characters there are, so every result covers all 256 byte values.
 */
module CValues {

  datatype Option<+T> = None | Some(value: T)

  const INT_MAX: int := 0x7FFF_FFFF
  const INT64_MAX: int := 0x7FFF_FFFF_FFFF_FFFF
  const SIZE_MAX: int := 0xFFFF_FFFF_FFFF_FFFF

  function Min(a: int, b: int): int {
    if a <= b then a else b
  }

  /** Conversion of a wider integer to a 32-bit `int`: the congruent value in range. */
  function AsInt(n: int): (r: int)
    ensures -INT_MAX - 1 <= r <= INT_MAX
    ensures (r - n) % 0x1_0000_0000 == 0
    ensures -INT_MAX - 1 <= n <= INT_MAX ==> r == n
  {
    var m := n % 0x1_0000_0000;
    if m <= INT_MAX then m else m - 0x1_0000_0000
  }

  /** Two integers become the same `int` exactly when they agree modulo 2^32. */
  lemma SameInt(a: int, b: int)
    ensures AsInt(a) == AsInt(b) <==> (a - b) % 0x1_0000_0000 == 0
  {
    var n := 0x1_0000_0000;
    assert a - b == n * (a / n - b / n) + (a % n - b % n);
  }

  /** Conversion of a signed 64-bit integer to `size_t`. */
  function AsSize(n: int): (r: nat)
    ensures r <= SIZE_MAX && (r - n) % 0x1_0000_0000_0000_0000 == 0
    ensures 0 <= n <= SIZE_MAX ==> r == n
  {
    n % 0x1_0000_0000_0000_0000
  }

  // ----- C strings -----

  lemma Assoc(a: string, b: string, c: string)
    ensures (a + b) + c == a + (b + c)
  {
  }

  /** The C string that starts a buffer: everything before the first NUL. */
  function CText(s: string): (t: string)
    ensures t <= s && '\0' !in t
    ensures '\0' in s ==> |t| < |s| && s[|t|] == '\0'
    ensures '\0' !in s ==> t == s
  {
    if s == "" || s[0] == '\0' then "" else [s[0]] + CText(s[1..])
  }

  lemma {:induction false} CTextTerminated(text: string, tail: string)
    requires '\0' !in text
    ensures CText(text + "\0" + tail) == text
  {
    if text == "" {
      assert (text + "\0" + tail)[0] == '\0';
    } else {
      assert (text + "\0" + tail)[1..] == text[1..] + "\0" + tail;
      CTextTerminated(text[1..], tail);
    }
  }

  // ----- Decimal conversions -----

  predicate IsDigit(c: char) {
    '0' <= c <= '9'
  }

  lemma DigitsAreTheTen(c: char)
    ensures IsDigit(c) <==> c in "0123456789"
  {
    if IsDigit(c) {
      assert "0123456789"[c as int - '0' as int] == c;
    }
  }

  function DigitValue(c: char): (d: nat)
    requires IsDigit(c)
    ensures d < 10 && c == "0123456789"[d]
  {
    c as int - '0' as int
  }

  function Digit(d: nat): (c: char)
    requires d < 10
    ensures IsDigit(c) && DigitValue(c) == d
  {
    '0' + d as char
  }

  predicate AllDigits(s: string) {
    forall i :: 0 <= i < |s| ==> IsDigit(s[i])
  }

  function Digits(n: nat): (s: string)
    ensures s != "" && AllDigits(s)
  {
    if n < 10 then [Digit(n)] else Digits(n / 10) + [Digit(n % 10)]
  }

  /** `apr_itoa`. */
  function Itoa(n: int): string {
    if n < 0 then "-" + Digits(-n) else Digits(n)
  }

  /** -1 in a `size_t` is printed as -1. */
  lemma MinusOne()
    ensures AsInt(0xFFFF_FFFF_FFFF_FFFF) == -1 && Itoa(-1) == "-1"
  {
    assert Digits(1) == "1";
  }

  predicate IsSpace(c: char) {
    c == ' ' || '\t' <= c <= '\r'
  }

  function SkipSpaces(s: string): string {
    if s != "" && IsSpace(s[0]) then SkipSpaces(s[1..]) else s
  }

  /** The value of the digits that start `s`, continuing from `acc`. */
  function LeadingValue(s: string, acc: nat): nat {
    if s == "" || !IsDigit(s[0]) then acc
    else LeadingValue(s[1..], 10 * acc + DigitValue(s[0]))
  }

  function Clamp64(n: int): int {
    if n > INT64_MAX then INT64_MAX else if n < -INT64_MAX - 1 then -INT64_MAX - 1 else n
  }

  /** `apr_atoi64`: spaces, an optional sign, then digits; the rest is ignored. */
  function Atoi64(s: string): int {
    var t := SkipSpaces(s);
    if t != "" && t[0] == '-' then Clamp64(0 - LeadingValue(t[1..], 0))
    else if t != "" && t[0] == '+' then Clamp64(LeadingValue(t[1..], 0))
    else Clamp64(LeadingValue(t, 0))
  }

  function Pow10(k: nat): (p: nat)
    ensures 0 < p
  {
    if k == 0 then 1 else 10 * Pow10(k - 1)
  }

  lemma AtLeastOnce(p: nat, k: nat)
    requires 1 <= k
    ensures p * k >= p
  {
  }

  lemma Quotient(x: nat, p: nat, a: nat, r: nat)
    requires x == p * a + r && r < p
    ensures x / p == a
  {
    var b, s := x / p, x % p;
    assert p * b + s == p * a + r;
    if b < a {
      assert p * a == p * b + p * (a - b);
      AtLeastOnce(p, a - b);
    } else if b > a {
      assert p * b == p * a + p * (b - a);
      AtLeastOnce(p, b - a);
    }
  }

  lemma DivideByPlace(n: nat, p: nat)
    requires 0 < p
    ensures n / 10 / p == n / (10 * p)
  {
    var q := n / 10;
    var a, r := q / p, 10 * (q % p) + n % 10;
    assert n == (10 * p) * a + r by {
      assert q == p * a + q % p;
      assert 10 * (p * a) == (10 * p) * a;
    }
    Quotient(n, 10 * p, a, r);
  }

  /** There are no leading zeros. */
  lemma {:induction false} DigitCount(n: nat)
    ensures n < Pow10(|Digits(n)|) && (n == 0 || Pow10(|Digits(n)| - 1) <= n)
  {
    if n < 10 {
    } else {
      DigitCount(n / 10);
    }
  }

  /** Decimal notation: the digit at each place. */
  lemma {:induction false} DigitAtPlace(n: nat, i: nat)
    requires i < |Digits(n)|
    ensures Digits(n)[|Digits(n)| - 1 - i] == "0123456789"[(n / Pow10(i)) % 10]
  {
    if i == 0 {
      assert n / Pow10(0) == n;
    } else {
      DigitAtPlace(n / 10, i - 1);
      DivideByPlace(n, Pow10(i - 1));
    }
  }

  lemma {:induction false} LeadingValueSnoc(s: string, c: char, acc: nat)
    requires AllDigits(s) && IsDigit(c)
    ensures LeadingValue(s + [c], acc) == 10 * LeadingValue(s, acc) + DigitValue(c)
  {
    if s == "" {
      assert (s + [c])[1..] == "";
    } else {
      assert (s + [c])[1..] == s[1..] + [c];
      LeadingValueSnoc(s[1..], c, 10 * acc + DigitValue(s[0]));
    }
  }

  lemma {:induction false} LeadingValueDigits(n: nat)
    ensures LeadingValue(Digits(n), 0) == n
  {
    if n < 10 {
      assert Digits(n)[1..] == "";
    } else {
      LeadingValueDigits(n / 10);
      LeadingValueSnoc(Digits(n / 10), Digit(n % 10), 0);
    }
  }

  /** Reading digits stops at the first byte that is none. */
  lemma {:induction false} LeadingValueStops(digits: string, tail: string, acc: nat)
    requires AllDigits(digits) && (tail == "" || tail[0] !in "0123456789")
    ensures LeadingValue(digits + tail, acc) == LeadingValue(digits, acc)
  {
    if digits == "" {
      assert digits + tail == tail;
      if tail != "" {
        DigitsAreTheTen(tail[0]);
      }
    } else {
      assert (digits + tail)[1..] == digits[1..] + tail;
      LeadingValueStops(digits[1..], tail, 10 * acc + DigitValue(digits[0]));
    }
  }

  predicate AllSpaces(s: string) {
    forall i :: 0 <= i < |s| ==> s[i] == ' ' || 9 <= s[i] as int <= 13
  }

  lemma {:induction false} SpacesAreSkipped(spaces: string, s: string)
    requires AllSpaces(spaces) && (s == "" || !IsSpace(s[0]))
    ensures SkipSpaces(spaces + s) == s
  {
    if spaces == "" {
      assert spaces + s == s;
    } else {
      assert (spaces + s)[1..] == spaces[1..] + s;
      SpacesAreSkipped(spaces[1..], s);
    }
  }

  /** Parsing a text without digits gives 0. */
  lemma AtoiOfNoDigits(spaces: string, s: string)
    requires AllSpaces(spaces) && (s == "" || (!IsSpace(s[0]) && s[0] !in "+-0123456789"))
    ensures Atoi64(spaces + s) == 0
  {
    SpacesAreSkipped(spaces, s);
    if s != "" {
      DigitsAreTheTen(s[0]);
      assert s[0] != '-' && s[0] != '+' && s[0] !in "0123456789" by {
        assert "+-0123456789"[2..] == "0123456789" && "+-0123456789"[0] == '+' && "+-0123456789"[1] == '-';
      }
    }
  }

  lemma DigitsAreRead(m: nat, tail: string)
    requires tail == "" || tail[0] !in "0123456789"
    ensures LeadingValue(Digits(m) + tail, 0) == m
    ensures Digits(m) + tail != "" && IsDigit((Digits(m) + tail)[0])
  {
    LeadingValueDigits(m);
    LeadingValueStops(Digits(m), tail, 0);
    assert IsDigit(Digits(m)[0]);
  }

  lemma AtoiOfDigits(spaces: string, s: string)
    requires AllSpaces(spaces) && s != "" && IsDigit(s[0])
    ensures Atoi64(spaces + s) == Clamp64(LeadingValue(s, 0))
    ensures Atoi64(spaces + ("-" + s)) == Clamp64(0 - LeadingValue(s, 0))
    ensures Atoi64(spaces + ("+" + s)) == Clamp64(LeadingValue(s, 0))
  {
    SpacesAreSkipped(spaces, s);
    SpacesAreSkipped(spaces, "-" + s);
    SpacesAreSkipped(spaces, "+" + s);
    assert ("-" + s)[1..] == s && ("+" + s)[1..] == s;
  }

  /**
   Parsing finds the printed integer, sign included, between leading white space and the
   first byte that is no digit; an integer of more than 64 bits becomes the nearest limit.
   */
  lemma AtoiReadsItoa(spaces: string, n: int, tail: string)
    requires AllSpaces(spaces) && (tail == "" || tail[0] !in "0123456789")
    ensures Atoi64(spaces + (Itoa(n) + tail)) ==
            if n > 0x7FFF_FFFF_FFFF_FFFF then 0x7FFF_FFFF_FFFF_FFFF
            else if n < -0x8000_0000_0000_0000 then -0x8000_0000_0000_0000
            else n
  {
    var m: nat := if n < 0 then -n else n;
    DigitsAreRead(m, tail);
    AtoiOfDigits(spaces, Digits(m) + tail);
    Assoc("-", Digits(m), tail);
  }

  /** Printing an integer and parsing it back gives the same integer, sign included. */
  lemma DecimalRoundTrip(n: int)
    requires -INT64_MAX <= n <= INT64_MAX
    ensures Atoi64(Itoa(n)) == n
  {
    AtoiReadsItoa("", n, "");
    assert "" + (Itoa(n) + "") == Itoa(n);
  }

  /** A printed integer is safe inside a header line: it holds no LF, NUL or colon. */
  lemma {:induction false} ItoaIsPlain(n: int)
    ensures '\n' !in Itoa(n) && '\0' !in Itoa(n) && ':' !in Itoa(n)
  {
    var d := Digits(if n < 0 then -n else n);
    forall c | c in Itoa(n) ensures IsDigit(c) || c == '-' {
      if c in d {
        var i :| 0 <= i < |d| && d[i] == c;
      }
    }
  }
}
