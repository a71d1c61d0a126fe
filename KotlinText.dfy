/**
 * The few pieces of the Kotlin/Java string library the core relies on:
 * isBlank/trim (Char.isWhitespace), decimal digits, Int.toString,
 * String.compareTo and String.hashCode. Strings are sequences of chars.
 */
module KotlinText {
  import opened Arith

  /** Kotlin Char.isWhitespace: Java whitespace plus the Unicode space separators. */
  predicate IsWhitespace(c: char) {
    c == ' ' || ('\t' <= c <= '\r') || ('\U{1C}' <= c <= '\U{1F}') ||
    c == '\U{A0}' || c == '\U{1680}' || ('\U{2000}' <= c <= '\U{200A}') ||
    c == '\U{2028}' || c == '\U{2029}' || c == '\U{202F}' || c == '\U{205F}' || c == '\U{3000}'
  }

  /** CharSequence.isBlank: empty or whitespace only. */
  predicate IsBlank(s: string) {
    forall i :: 0 <= i < |s| ==> IsWhitespace(s[i])
  }

  /** Index of the first non-whitespace char at or after i (|s| if none). */
  function SkipLeading(s: string, i: nat): (r: nat)
    requires i <= |s|
    ensures i <= r <= |s|
    ensures forall k :: i <= k < r ==> IsWhitespace(s[k])
    ensures r < |s| ==> !IsWhitespace(s[r])
    decreases |s| - i
  {
    if i == |s| || !IsWhitespace(s[i]) then i else SkipLeading(s, i + 1)
  }

  /** End of s[lo..hi] once the trailing whitespace is dropped. */
  function SkipTrailing(s: string, lo: nat, hi: nat): (r: nat)
    requires lo <= hi <= |s|
    ensures lo <= r <= hi
    ensures forall k :: r <= k < hi ==> IsWhitespace(s[k])
    ensures lo < r ==> !IsWhitespace(s[r - 1])
    decreases hi - lo
  {
    if hi == lo || !IsWhitespace(s[hi - 1]) then hi else SkipTrailing(s, lo, hi - 1)
  }

  /** String.trim(): s without its leading and trailing whitespace. */
  function Trim(s: string): (r: string)
    ensures exists i, j :: 0 <= i <= j <= |s| && r == s[i..j] &&
              (forall k :: 0 <= k < i ==> IsWhitespace(s[k])) &&
              (forall k :: j <= k < |s| ==> IsWhitespace(s[k]))
    ensures r == [] || (!IsWhitespace(r[0]) && !IsWhitespace(r[|r| - 1]))
    ensures r == [] <==> IsBlank(s)
  {
    var i := SkipLeading(s, 0);
    var j := SkipTrailing(s, i, |s|);
    assert i < j ==> !IsWhitespace(s[i]);
    s[i..j]
  }

  predicate IsDigit(c: char) { '0' <= c <= '9' }

  predicate AllDigits(s: string) {
    forall i :: 0 <= i < |s| ==> IsDigit(s[i])
  }

  function DigitChar(n: nat): (c: char)
    requires n < 10
    ensures IsDigit(c)
  {
    (48 + n) as char
  }

  function DigitValue(c: char): (n: nat)
    requires IsDigit(c)
    ensures n < 10 && DigitChar(n) == c
  {
    (c as int - 48)
  }

  /** The value of a decimal digit string (leading zeros allowed). */
  function Value(s: string): (n: nat)
    requires AllDigits(s)
  {
    if s == [] then 0 else Value(s[..|s| - 1]) * 10 + DigitValue(s[|s| - 1])
  }

  lemma ValueOfTwo(s: string)
    requires AllDigits(s) && |s| == 2
    ensures Value(s) == 10 * DigitValue(s[0]) + DigitValue(s[1])
  {
    assert s[..1][..0] == [] && s[..1][0] == s[0];
    assert Value(s[..1]) == DigitValue(s[0]);
  }

  lemma ValueOfFour(s: string)
    requires AllDigits(s) && |s| == 4
    ensures Value(s) == 1000 * DigitValue(s[0]) + 100 * DigitValue(s[1]) + 10 * DigitValue(s[2]) + DigitValue(s[3])
  {
    ValueOfTwo(s[..2]);
    assert s[..3][..2] == s[..2];
  }

  /** Decimal text of n, left-padded with zeros to at least `width` digits. */
  function Decimal(n: nat, width: nat): (s: string)
    ensures AllDigits(s) && |s| >= 1 && |s| >= width
    decreases n, width
  {
    if n < 10 && width <= 1 then [DigitChar(n)]
    else Decimal(n / 10, if width > 0 then width - 1 else 0) + [DigitChar(n % 10)]
  }

  /** Reading back what Decimal wrote gives the number. */
  lemma {:induction false} ValueOfDecimal(n: nat, width: nat)
    ensures Value(Decimal(n, width)) == n
    decreases n, width
  {
    var s := Decimal(n, width);
    if n < 10 && width <= 1 {
    } else {
      ValueOfDecimal(n / 10, if width > 0 then width - 1 else 0);
      assert s[..|s| - 1] == Decimal(n / 10, if width > 0 then width - 1 else 0);
    }
  }

  /** Decimal pads to exactly `width` digits when the number fits. */
  lemma {:induction false} DecimalLength(n: nat, width: nat)
    requires width >= 1 && n < Pow10(width)
    ensures |Decimal(n, width)| == width
    decreases width
  {
    if n < 10 && width <= 1 {
    } else {
      DecimalLength(n / 10, width - 1);
    }
  }

  /** Decimal pads to the number of digits n has when that exceeds `width`. */
  lemma {:induction false} DecimalLengthAtLeast(n: nat, width: nat, k: nat)
    requires k >= 1 && Pow10(k) <= n
    ensures |Decimal(n, width)| > k
    decreases k
  {
    if k > 1 {
      DecimalLengthAtLeast(n / 10, if width > 0 then width - 1 else 0, k - 1);
    }
  }

  /** A digit string of length w is the w-digit text of its value. */
  lemma {:induction false} DecimalOfValue(s: string)
    requires AllDigits(s) && |s| >= 1
    ensures Decimal(Value(s), |s|) == s
    ensures Value(s) < Pow10(|s|)
    decreases |s|
  {
    var init := s[..|s| - 1];
    if |s| > 1 {
      DecimalOfValue(init);
      assert s == init + [s[|s| - 1]];
    }
  }

  function Pow10(k: nat): (p: nat)
    ensures p >= 1
  {
    if k == 0 then 1 else 10 * Pow10(k - 1)
  }

  /** Two equal-length digit strings with the same value are the same string. */
  lemma ValueInjective(s: string, t: string)
    requires AllDigits(s) && AllDigits(t) && |s| == |t| >= 1
    requires Value(s) == Value(t)
    ensures s == t
  {
    DecimalOfValue(s);
    DecimalOfValue(t);
  }

  /** String.compareTo(a, b) < 0: lexicographic order on char codes, a proper prefix first. */
  predicate StrLess(a: string, b: string)
    decreases |a|
  {
    if a == [] then b != []
    else if b == [] then false
    else if a[0] != b[0] then a[0] < b[0]
    else StrLess(a[1..], b[1..])
  }

  /** For strings of equal length, comparing a + c with b + d compares a with b first. */
  lemma {:induction false} StrLessConcat(a: string, b: string, c: string, d: string)
    requires |a| == |b|
    ensures StrLess(a + c, b + d) <==> StrLess(a, b) || (a == b && StrLess(c, d))
    decreases |a|
  {
    if a != [] {
      assert (a + c)[0] == a[0] && (b + d)[0] == b[0];
      assert (a + c)[1..] == a[1..] + c;
      assert (b + d)[1..] == b[1..] + d;
      StrLessConcat(a[1..], b[1..], c, d);
      if a[0] == b[0] && a[1..] == b[1..] {
        assert a == b;
      }
    } else {
      assert a + c == c && b + d == d;
    }
  }

  /** On digit strings of one length, lexicographic order is numeric order. */
  lemma {:induction false} StrLessDigits(s: string, t: string)
    requires AllDigits(s) && AllDigits(t) && |s| == |t|
    ensures StrLess(s, t) <==> Value(s) < Value(t)
    decreases |s|
  {
    if |s| > 0 {
      var s', t' := s[..|s| - 1], t[..|t| - 1];
      var c, e := s[|s| - 1], t[|t| - 1];
      assert s == s' + [c] && t == t' + [e];
      StrLessConcat(s', t', [c], [e]);
      StrLessDigits(s', t');
      if |s'| > 0 && Value(s') == Value(t') {
        ValueInjective(s', t');
      }
    }
  }

  /** Int.toString(): decimal text with a leading '-' for negative numbers. */
  function IntToString(n: int): (s: string)
    ensures |s| >= 1
  {
    if n < 0 then "-" + Decimal(-n, 1) else Decimal(n, 1)
  }

  const TwoTo32: int := 0x1_0000_0000
  const TwoTo31: int := 0x8000_0000

  /** A 32-bit two's-complement reinterpretation of an unsigned 32-bit value. */
  function ToInt32(u: int): (r: int)
    requires 0 <= u < TwoTo32
    ensures -TwoTo31 <= r < TwoTo31
    ensures (r - u) % TwoTo32 == 0
  {
    if u < TwoTo31 then u else u - TwoTo32
  }

  /** The unsigned 32-bit value of h = 31 * h + c over the chars of s, wrapping at each step. */
  function HashBits(s: string): (u: int)
    ensures 0 <= u < TwoTo32
  {
    if s == [] then 0 else (31 * HashBits(s[..|s| - 1]) + s[|s| - 1] as int) % TwoTo32
  }

  /** String.hashCode() for strings of UTF-16 code units (chars below U+10000). */
  function HashCode(s: string): (h: int)
    ensures -TwoTo31 <= h < TwoTo31
  {
    ToInt32(HashBits(s))
  }

  /** The polynomial s[0]*31^(n-1) + ... + s[n-1] without any wrap-around. */
  function HashPolynomial(s: string): int {
    if s == [] then 0 else 31 * HashPolynomial(s[..|s| - 1]) + s[|s| - 1] as int
  }

  /** Wrapping at every step agrees with wrapping once: the bits are the polynomial modulo 2^32. */
  lemma {:induction false} HashBitsIsPolynomial(s: string)
    ensures HashBits(s) == HashPolynomial(s) % TwoTo32
  {
    if s != [] {
      var init := s[..|s| - 1];
      var c := s[|s| - 1] as int;
      HashBitsIsPolynomial(init);
      var p := HashPolynomial(init);
      calc {
        HashBits(s);
        (31 * HashBits(init) + c) % TwoTo32;
        (31 * (p % TwoTo32) + c) % TwoTo32;
        { ModLinear(p, c); }
        (31 * p + c) % TwoTo32;
        HashPolynomial(s) % TwoTo32;
      }
    }
  }

  /** String.hashCode is the polynomial hash read as a signed 32-bit number. */
  lemma HashCodeIsPolynomial(s: string)
    ensures HashCode(s) == ToInt32(HashPolynomial(s) % TwoTo32)
  {
    HashBitsIsPolynomial(s);
  }

  /** (31 * (p mod M) + c) mod M == (31 * p + c) mod M for M = 2^32. */
  lemma ModLinear(p: int, c: int)
    ensures (31 * (p % TwoTo32) + c) % TwoTo32 == (31 * p + c) % TwoTo32
  {
    var q := p / TwoTo32;
    assert p == q * TwoTo32 + p % TwoTo32;
    assert 31 * p + c == (31 * (p % TwoTo32) + c) + (31 * q) * TwoTo32;
    ModAddMultiple(31 * (p % TwoTo32) + c, 31 * q, TwoTo32);
  }
}
