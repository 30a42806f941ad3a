/**
 * Text helpers the node decoder relies on: the decimal rendering that
 * Python's f-strings apply to a byte, the dotted-quad IPv4 string built from
 * four such renderings (with a parser as its inverse), and the well-formedness
 * of UTF-8 that `bytes.decode('utf-8')` insists on.
 */
module Text {

  datatype Option<T> = None | Some(value: T)

  predicate IsDigit(c: char) {
    '0' <= c <= '9'
  }

  predicate IsDigits(s: string) {
    forall i :: 0 <= i < |s| ==> IsDigit(s[i])
  }

  function DigitChar(d: nat): (c: char)
    requires d < 10
    ensures IsDigit(c)
  {
    ('0' as int + d) as char
  }

  function DigitValue(c: char): (d: nat)
    requires IsDigit(c)
    ensures d < 10
  {
    c as int - '0' as int
  }

  /** The decimal rendering of `n`, as `str(n)` or `f"{n}"` produce it. */
  function Decimal(n: nat): (s: string)
    ensures |s| >= 1 && IsDigits(s)
    ensures s[0] == '0' ==> n == 0           // no leading zero
    ensures n < 10 ==> |s| == 1
    ensures n < 100 ==> |s| <= 2
    ensures n < 1000 ==> |s| <= 3          // a byte takes at most three digits
  {
    if n < 10 then [DigitChar(n)] else Decimal(n / 10) + [DigitChar(n % 10)]
  }

  /** Reads a string of digits as a decimal number (the empty string reads as 0). */
  function ParseDecimal(s: string): nat
    requires IsDigits(s)
  {
    if s == [] then 0 else ParseDecimal(s[..|s| - 1]) * 10 + DigitValue(s[|s| - 1])
  }

  lemma {:induction false} ParseDecimalOfDecimal(n: nat)
    ensures ParseDecimal(Decimal(n)) == n
  {
    if n >= 10 {
      var s := Decimal(n);
      assert s[..|s| - 1] == Decimal(n / 10);
      ParseDecimalOfDecimal(n / 10);
    }
  }

  lemma DecimalInjective(m: nat, n: nat)
    requires Decimal(m) == Decimal(n)
    ensures m == n
  {
    ParseDecimalOfDecimal(m);
    ParseDecimalOfDecimal(n);
  }

  /** Splits a string at every '.', like Python's `s.split('.')`. */
  function SplitDots(s: string): (parts: seq<string>)
    ensures |parts| >= 1
  {
    if s == [] then [""]
    else
      var rest := SplitDots(s[1..]);
      if s[0] == '.' then [""] + rest else [[s[0]] + rest[0]] + rest[1..]
  }

  lemma {:induction false} SplitDotsOfDigits(x: string)
    requires IsDigits(x)
    ensures SplitDots(x) == [x]
  {
    if x != [] {
      SplitDotsOfDigits(x[1..]);
      assert [x[0]] + x[1..] == x;
    }
  }

  lemma {:induction false} SplitDotsAfterDigits(x: string, y: string)
    requires IsDigits(x)
    ensures SplitDots(x + "." + y) == [x] + SplitDots(y)
  {
    if x == [] {
      assert x + "." + y == ['.'] + y;
      assert (['.'] + y)[1..] == y;
    } else {
      SplitDotsAfterDigits(x[1..], y);
      assert (x + "." + y)[1..] == x[1..] + "." + y;
      assert [x[0]] + x[1..] == x;
    }
  }

  /**
   * The IPv4 address `a.b.c.d`, rendered as the decoder's f-string does:
   * each octet in decimal, separated by dots.
   */
  function DottedQuad(a: nat, b: nat, c: nat, d: nat): string {
    Decimal(a) + "." + Decimal(b) + "." + Decimal(c) + "." + Decimal(d)
  }

  predicate IsNumeral(s: string) {
    s != [] && IsDigits(s)
  }

  /** Reads `a.b.c.d` back into its four numbers; None for anything else. */
  function ParseDottedQuad(s: string): Option<seq<nat>> {
    var parts := SplitDots(s);
    if |parts| == 4 && IsNumeral(parts[0]) && IsNumeral(parts[1])
        && IsNumeral(parts[2]) && IsNumeral(parts[3])
    then Some([ParseDecimal(parts[0]), ParseDecimal(parts[1]),
               ParseDecimal(parts[2]), ParseDecimal(parts[3])])
    else None
  }

  lemma SplitDotted(w: string, x: string, y: string, z: string)
    requires IsDigits(w) && IsDigits(x) && IsDigits(y) && IsDigits(z)
    ensures SplitDots(w + "." + x + "." + y + "." + z) == [w, x, y, z]
  {
    var tail := y + "." + z;
    var mid := x + "." + tail;
    assert w + "." + x + "." + y + "." + z == w + "." + mid;
    SplitDotsOfDigits(z);
    SplitDotsAfterDigits(y, z);
    SplitDotsAfterDigits(x, tail);
    SplitDotsAfterDigits(w, mid);
  }

  /** The dotted quad carries exactly its four octets: parsing it gives them back. */
  lemma ParseDottedQuadOfDottedQuad(a: nat, b: nat, c: nat, d: nat)
    ensures ParseDottedQuad(DottedQuad(a, b, c, d)) == Some([a, b, c, d])
  {
    SplitDotted(Decimal(a), Decimal(b), Decimal(c), Decimal(d));
    ParseDecimalOfDecimal(a);
    ParseDecimalOfDecimal(b);
    ParseDecimalOfDecimal(c);
    ParseDecimalOfDecimal(d);
  }

  lemma DottedQuadInjective(a: nat, b: nat, c: nat, d: nat, a': nat, b': nat, c': nat, d': nat)
    requires DottedQuad(a, b, c, d) == DottedQuad(a', b', c', d')
    ensures a == a' && b == b' && c == c' && d == d'
  {
    ParseDottedQuadOfDottedQuad(a, b, c, d);
    ParseDottedQuadOfDottedQuad(a', b', c', d');
  }

  // ---------------------------------------------------------------------
  // UTF-8 well-formedness (the byte-sequence syntax of RFC 3629, section 4),
  // which is what `bytes.decode('utf-8')` accepts without raising.

  predicate IsContinuation(b: bv8) {
    0x80 <= b <= 0xBF
  }

  predicate ValidUtf8(s: seq<bv8>)
    decreases |s|
  {
    if s == [] then true
    else if s[0] <= 0x7F then ValidUtf8(s[1..])
    else if 0xC2 <= s[0] <= 0xDF then
      |s| >= 2 && IsContinuation(s[1]) && ValidUtf8(s[2..])
    else if s[0] == 0xE0 then
      |s| >= 3 && 0xA0 <= s[1] <= 0xBF && IsContinuation(s[2]) && ValidUtf8(s[3..])
    else if (0xE1 <= s[0] <= 0xEC) || (0xEE <= s[0] <= 0xEF) then
      |s| >= 3 && IsContinuation(s[1]) && IsContinuation(s[2]) && ValidUtf8(s[3..])
    else if s[0] == 0xED then
      |s| >= 3 && 0x80 <= s[1] <= 0x9F && IsContinuation(s[2]) && ValidUtf8(s[3..])
    else if s[0] == 0xF0 then
      |s| >= 4 && 0x90 <= s[1] <= 0xBF && IsContinuation(s[2]) && IsContinuation(s[3])
      && ValidUtf8(s[4..])
    else if 0xF1 <= s[0] <= 0xF3 then
      |s| >= 4 && IsContinuation(s[1]) && IsContinuation(s[2]) && IsContinuation(s[3])
      && ValidUtf8(s[4..])
    else if s[0] == 0xF4 then
      |s| >= 4 && 0x80 <= s[1] <= 0x8F && IsContinuation(s[2]) && IsContinuation(s[3])
      && ValidUtf8(s[4..])
    else false
  }

  /** Any all-ASCII byte string (a name padded with NULs, say) decodes. */
  lemma {:induction false} AsciiIsValidUtf8(s: seq<bv8>)
    requires forall i :: 0 <= i < |s| ==> s[i] <= 0x7F
    ensures ValidUtf8(s)
  {
    if s != [] {
      AsciiIsValidUtf8(s[1..]);
    }
  }

  /** A byte 0xC0, 0xC1 or 0xF5..0xFF never starts a valid sequence, and a lone continuation byte is rejected. */
  lemma InvalidLeadBytes(b: bv8, rest: seq<bv8>)
    requires b == 0xC0 || b == 0xC1 || b >= 0xF5 || IsContinuation(b)
    ensures !ValidUtf8([b] + rest)
  {
  }
}
