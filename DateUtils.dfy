/**
 * DateUtils.kt: the date key codec. A key is the ISO 8601 calendar date in
 * extended format (DateTimeFormatter.ISO_LOCAL_DATE): a year of at least
 * four digits (signed when negative or above 9999), then "-MM-DD".
 * Dates are epoch days (see Calendar).
 */
module DateUtils {
  import opened Wrappers
  import opened Calendar
  import opened KotlinText

  /** java.time.Year.MIN_VALUE and MAX_VALUE: the years a LocalDate can hold. */
  const MinYear: int := -999_999_999
  const MaxYear: int := 999_999_999

  predicate InJavaRange(z: int) {
    MinYear <= Civil(z).year <= MaxYear
  }

  /** The year field: four digits at least, '+' above 9999, '-' below 0. */
  function YearText(y: int): string {
    if y < 0 then "-" + Decimal(-y, 4)
    else if y > 9999 then "+" + Decimal(y, 4)
    else Decimal(y, 4)
  }

  function FormatDate(d: Date): string
    requires ValidDate(d)
  {
    YearText(d.year) + "-" + Decimal(d.month, 2) + "-" + Decimal(d.day, 2)
  }

  /** The ten-character shape YYYY-MM-DD: four, two and two ASCII digits separated by '-'. */
  predicate IsExtendedDate(k: string) {
    |k| == 10 && k[4] == '-' && k[7] == '-' &&
    AllDigits(k[..4]) && AllDigits(k[5..7]) && AllDigits(k[8..])
  }

  /** DateUtils.formatKey(date). For years 0000-9999 the key is YYYY-MM-DD naming that date. */
  function FormatKey(z: int): (k: string)
    ensures 0 <= Civil(z).year <= 9999 ==>
      IsExtendedDate(k) && Value(k[..4]) == Civil(z).year &&
      Value(k[5..7]) == Civil(z).month && Value(k[8..]) == Civil(z).day
  {
    var d := Civil(z);
    assert 0 <= d.year <= 9999 ==> (IsExtendedDate(FormatDate(d)) &&
      Value(FormatDate(d)[..4]) == d.year && Value(FormatDate(d)[5..7]) == d.month &&
      Value(FormatDate(d)[8..]) == d.day) by {
      if 0 <= d.year <= 9999 { FourDigitYearKey(d); }
    }
    FormatDate(d)
  }

  lemma FourDigitYearKey(d: Date)
    requires ValidDate(d) && 0 <= d.year <= 9999
    ensures IsExtendedDate(FormatDate(d))
    ensures FormatDate(d)[..4] == Decimal(d.year, 4)
    ensures FormatDate(d)[5..7] == Decimal(d.month, 2)
    ensures FormatDate(d)[8..] == Decimal(d.day, 2)
    ensures Value(FormatDate(d)[..4]) == d.year
    ensures Value(FormatDate(d)[5..7]) == d.month && Value(FormatDate(d)[8..]) == d.day
  {
    DecimalLength(d.year, 4);
    DecimalLength(d.month, 2);
    DecimalLength(d.day, 2);
    ValueOfDecimal(d.year, 4);
    ValueOfDecimal(d.month, 2);
    ValueOfDecimal(d.day, 2);
    var k := FormatDate(d);
    assert k[..4] == Decimal(d.year, 4);
    assert k[5..7] == Decimal(d.month, 2);
    assert k[8..] == Decimal(d.day, 2);
  }

  /** DateUtils.todayKey(), with today's epoch day passed in instead of read from the clock. */
  function TodayKey(today: int): (k: string)
    ensures InJavaRange(today) ==> ParseKey(k) == Some(today)
  {
    assert InJavaRange(today) ==> ParseKey(FormatKey(today)) == Some(today) by {
      if InJavaRange(today) { ParseFormat(today); }
    }
    FormatKey(today)
  }

  /** Index of the first non-digit at or after i (|s| if none). */
  function LeadingDigits(s: string, i: nat): (n: nat)
    requires i <= |s|
    ensures i <= n <= |s|
    ensures AllDigits(s[i..n])
    ensures n < |s| ==> !IsDigit(s[n])
    decreases |s| - i
  {
    if i == |s| || !IsDigit(s[i]) then i else LeadingDigits(s, i + 1)
  }

  lemma {:induction false} LeadingDigitsStopAt(s: string, i: nat, k: nat)
    requires i <= k < |s| && AllDigits(s[i..k]) && !IsDigit(s[k])
    ensures LeadingDigits(s, i) == k
    decreases k - i
  {
    if i < k {
      assert s[i] == s[i..k][0];
      assert s[i + 1..k] == s[i..k][1..];
      LeadingDigitsStopAt(s, i + 1, k);
    }
  }

  /** What the text parser extracts before the calendar is consulted. */
  datatype Fields = Fields(year: int, month: int, day: int)

  /** Width of the year field: the leading digits, at most ten of them. */
  function YearWidth(body: string): (n: nat)
    ensures n <= 10 && n <= |body| && AllDigits(body[..n])
  {
    var all := LeadingDigits(body, 0);
    assert body[..all] == body[0..all];
    if all > 10 then (assert body[..10] == body[..all][..10]; 10) else all
  }

  /**
   * The sign rules of the year field (SignStyle.EXCEEDS_PAD, strict):
   * "-" needs a non-zero value, "+" needs more than four digits, and more
   * than four digits need a sign.
   */
  predicate SignAccepted(signed: bool, negative: bool, n: nat, v: nat) {
    (negative ==> v != 0) && (signed && !negative ==> n > 4) && (!signed ==> n <= 4)
  }

  /** The "-MM-DD" part: exactly six chars, two two-digit fields. */
  function ParseMonthDay(rest: string): (r: Option<(nat, nat)>)
    ensures r.Some? <==> |rest| == 6 && rest[0] == '-' && rest[3] == '-' &&
                         AllDigits(rest[1..3]) && AllDigits(rest[4..])
    ensures r.Some? ==> r.value == (Value(rest[1..3]), Value(rest[4..]))
  {
    if |rest| == 6 && rest[0] == '-' && IsDigit(rest[1]) && IsDigit(rest[2]) &&
       rest[3] == '-' && IsDigit(rest[4]) && IsDigit(rest[5])
    then
      assert AllDigits(rest[1..3]) && AllDigits(rest[4..]);
      Some((Value(rest[1..3]), Value(rest[4..])))
    else
      assert |rest| == 6 && AllDigits(rest[1..3]) ==> IsDigit(rest[1..3][0]) && IsDigit(rest[1..3][1]);
      assert |rest| == 6 && AllDigits(rest[4..]) ==> IsDigit(rest[4..][0]) && IsDigit(rest[4..][1]);
      None
  }

  /** Everything after the optional sign. */
  function ParseBody(signed: bool, negative: bool, body: string): Option<Fields> {
    var n := YearWidth(body);
    if n < 4 then None
    else
      var v := Value(body[..n]);
      if !SignAccepted(signed, negative, n, v) then None
      else
        match ParseMonthDay(body[n..])
        case None => None
        case Some(md) => Some(Fields(if negative then -(v as int) else v, md.0, md.1))
  }

  /**
   * The text stage of LocalDate.parse(key, ISO_LOCAL_DATE) in strict mode:
   * an optional sign, 4 to 10 year digits, '-', two month digits, '-', two
   * day digits, and nothing after.
   */
  function ParseFields(s: string): (r: Option<Fields>)
    ensures IsExtendedDate(s) ==>
      r == Some(Fields(Value(s[..4]), Value(s[5..7]), Value(s[8..])))
  {
    assert IsExtendedDate(s) ==> (ParseBody(false, false, s) ==
      Some(Fields(Value(s[..4]), Value(s[5..7]), Value(s[8..])))) by {
      if IsExtendedDate(s) { ExtendedDateFields(s); }
    }
    if |s| > 0 && (s[0] == '+' || s[0] == '-') then ParseBody(true, s[0] == '-', s[1..])
    else ParseBody(false, false, s)
  }

  lemma ExtendedDateFields(s: string)
    requires IsExtendedDate(s)
    ensures ParseBody(false, false, s) == Some(Fields(Value(s[..4]), Value(s[5..7]), Value(s[8..])))
  {
    assert s[..4][0] == s[0];
    LeadingDigitsStopAt(s, 0, 4);
    assert s[..4] == s[0..4];
    assert s[4..][1..3] == s[5..7] && s[4..][4..] == s[8..];
  }

  /** The strict resolver: the year must fit a LocalDate and the day must exist in that month. */
  function Resolve(f: Fields): (r: Option<int>)
    ensures r.Some? <==> MinYear <= f.year <= MaxYear && ValidDate(Date(f.year, f.month, f.day))
    ensures r.Some? ==> Civil(r.value) == Date(f.year, f.month, f.day)
  {
    if f.year < MinYear || f.year > MaxYear || f.month < 1 || f.month > 12 ||
       f.day < 1 || f.day > 31 || f.day > LengthOfMonth(f.year, f.month)
    then None
    else
      CivilOfEpochDay(Date(f.year, f.month, f.day));
      Some(EpochDay(f.year, f.month, f.day))
  }

  /** DateUtils.parseKey(key): None where LocalDate.parse throws. */
  function ParseKey(k: string): (r: Option<int>)
    ensures r.Some? ==> InJavaRange(r.value)
  {
    match ParseFields(k)
    case None => None
    case Some(f) => Resolve(f)
  }

  /** A key of the YYYY-MM-DD shape parses exactly when it names a real calendar date. */
  lemma ParseKeyRejectsNonDates(k: string)
    requires IsExtendedDate(k)
    ensures ParseKey(k).Some? <==> ValidDate(Date(Value(k[..4]), Value(k[5..7]), Value(k[8..])))
    ensures ParseKey(k).Some? ==>
      Civil(ParseKey(k).value) == Date(Value(k[..4]), Value(k[5..7]), Value(k[8..]))
  {
    assert AllDigits(k[..4]);
    DecimalOfValue(k[..4]);
    assert Pow10(4) == 10000;
  }

  /** Parsing a formatted date gives the date back, for every year a LocalDate can hold. */
  lemma ParseFormat(z: int)
    requires InJavaRange(z)
    ensures ParseKey(FormatKey(z)) == Some(z)
  {
    var d := Civil(z);
    FormatFields(d);
    assert FormatKey(z) == FormatDate(d);
  }

  /** The text stage reads a formatted date back as its three fields. */
  lemma FormatFields(d: Date)
    requires ValidDate(d) && MinYear <= d.year <= MaxYear
    ensures ParseFields(FormatDate(d)) == Some(Fields(d.year, d.month, d.day))
  {
    var tail := "-" + Decimal(d.month, 2) + "-" + Decimal(d.day, 2);
    var a := if d.year < 0 then -d.year else d.year;
    var sign := if d.year < 0 then "-" else if d.year > 9999 then "+" else "";
    var digits := Decimal(a, 4);
    assert ParseMonthDay(tail) == Some((d.month, d.day)) by {
      MonthDayText(d.month, d.day);
    }
    assert FormatDate(d) == sign + digits + tail &&
      AllDigits(digits) && 4 <= |digits| <= 10 && (sign == "" ==> |digits| == 4) &&
      (sign == "+" ==> |digits| > 4) && (sign == "-" ==> a != 0) && Value(digits) == a by {
      YearTextShape(d.year);
      FormatDateParts(d);
    }
    SignedFields(sign, digits, tail, d.month, d.day);
  }

  lemma FormatDateParts(d: Date)
    requires ValidDate(d)
    ensures FormatDate(d) == YearText(d.year) + ("-" + Decimal(d.month, 2) + "-" + Decimal(d.day, 2))
  {
  }

  /** The "-MM-DD" text of a month and a day reads back as that month and day. */
  lemma MonthDayText(m: nat, d: nat)
    requires 1 <= m <= 12 && 1 <= d <= 31
    ensures ParseMonthDay("-" + Decimal(m, 2) + "-" + Decimal(d, 2)) == Some((m, d))
  {
    DecimalLength(m, 2);
    DecimalLength(d, 2);
    ValueOfDecimal(m, 2);
    ValueOfDecimal(d, 2);
    var t := "-" + Decimal(m, 2) + "-" + Decimal(d, 2);
    assert t[1..3] == Decimal(m, 2) && t[4..] == Decimal(d, 2);
  }

  /** The year field is a sign (as the sign rules demand) and 4 to 10 digits holding |y|. */
  lemma YearTextShape(y: int)
    requires MinYear <= y <= MaxYear
    ensures var a := if y < 0 then -y else y;
            var sign := if y < 0 then "-" else if y > 9999 then "+" else "";
            YearText(y) == sign + Decimal(a, 4) &&
            4 <= |Decimal(a, 4)| <= 10 && (sign == "" ==> |Decimal(a, 4)| == 4) &&
            (sign == "+" ==> |Decimal(a, 4)| > 4) && (sign == "-" ==> a != 0) &&
            Value(Decimal(a, 4)) == a
  {
    var a := if y < 0 then -y else y;
    ValueOfDecimal(a, 4);
    assert Pow10(4) == 10000;
    assert Pow10(9) == 1_000_000_000;
    DecimalLengthAtMost(a, 4, 9);
    if a > 9999 {
      DecimalLengthAtLeast(a, 4, 4);
    } else {
      DecimalLength(a, 4);
    }
  }

  /** Decimal never writes more digits than a number below 10^k needs, if the width allows. */
  lemma {:induction false} DecimalLengthAtMost(n: nat, width: nat, k: nat)
    requires width <= k && n < Pow10(k) && k >= 1
    ensures |Decimal(n, width)| <= k
    decreases k
  {
    if !(n < 10 && width <= 1) {
      DecimalLengthAtMost(n / 10, if width > 0 then width - 1 else 0, k - 1);
    }
  }

  /** The text stage reads back a sign, a digit run and a "-MM-DD" tail. */
  lemma SignedFields(sign: string, digits: string, tail: string, m: nat, d: nat)
    requires sign == "" || sign == "+" || sign == "-"
    requires AllDigits(digits) && 4 <= |digits| <= 10
    requires sign == "" ==> |digits| == 4
    requires sign == "+" ==> |digits| > 4
    requires sign == "-" ==> Value(digits) != 0
    requires ParseMonthDay(tail) == Some((m, d))
    ensures ParseFields(sign + digits + tail) ==
      Some(Fields(if sign == "-" then -(Value(digits) as int) else Value(digits), m, d))
  {
    BodyFields(sign != "", sign == "-", digits, tail, m, d);
    SignPrefix(sign, digits, tail);
  }

  /** A leading sign is consumed and recorded; without one the text must start with a digit. */
  lemma SignPrefix(sign: string, digits: string, tail: string)
    requires sign == "" || sign == "+" || sign == "-"
    requires sign == "" ==> |digits| > 0 && IsDigit(digits[0])
    ensures ParseFields(sign + digits + tail) == ParseBody(sign != "", sign == "-", digits + tail)
  {
    if sign != "" {
      assert sign + digits + tail == [sign[0]] + (digits + tail);
      SignedText(sign[0], digits + tail);
    } else {
      assert sign + digits + tail == digits + tail;
      UnsignedText(digits + tail);
    }
  }

  lemma SignedText(c: char, body: string)
    requires c == '+' || c == '-'
    ensures ParseFields([c] + body) == ParseBody(true, c == '-', body)
  {
    assert ([c] + body)[1..] == body;
  }

  lemma UnsignedText(s: string)
    requires |s| > 0 && IsDigit(s[0])
    ensures ParseFields(s) == ParseBody(false, false, s)
  {
  }

  lemma BodyFields(signed: bool, negative: bool, digits: string, tail: string, m: nat, d: nat)
    requires AllDigits(digits) && 4 <= |digits| <= 10
    requires negative ==> signed
    requires SignAccepted(signed, negative, |digits|, Value(digits))
    requires ParseMonthDay(tail) == Some((m, d))
    ensures ParseBody(signed, negative, digits + tail) ==
      Some(Fields(if negative then -(Value(digits) as int) else Value(digits), m, d))
  {
    var body := digits + tail;
    assert body[|digits|] == tail[0] == '-';
    assert body[0..|digits|] == digits;
    LeadingDigitsStopAt(body, 0, |digits|);
    assert YearWidth(body) == |digits|;
    assert body[..|digits|] == digits;
    assert body[|digits|..] == tail;
  }

  /** Parse then format gives the key back, for keys of the YYYY-MM-DD shape naming a real date. */
  lemma FormatParse(k: string)
    requires IsExtendedDate(k) && ParseKey(k).Some?
    ensures FormatKey(ParseKey(k).value) == k
  {
    ParseKeyRejectsNonDates(k);
    var y, m, d := Value(k[..4]), Value(k[5..7]), Value(k[8..]);
    DecimalOfValue(k[..4]);
    DecimalOfValue(k[5..7]);
    DecimalOfValue(k[8..]);
    assert Pow10(4) == 10000;
    assert k == k[..4] + "-" + k[5..7] + "-" + k[8..];
  }

  /**
   * For years 0000-9999, comparing keys as strings (String.compareTo) is
   * comparing the dates: the key order used by string comparisons of
   * startDate against todayKey is chronological order.
   */
  lemma KeyOrderIsDateOrder(z1: int, z2: int)
    requires 0 <= Civil(z1).year <= 9999 && 0 <= Civil(z2).year <= 9999
    ensures StrLess(FormatKey(z1), FormatKey(z2)) <==> z1 < z2
    ensures FormatKey(z1) == FormatKey(z2) <==> z1 == z2
  {
    var ka, kb := FormatKey(z1), FormatKey(z2);
    KeyCompare(ka, kb);
    CivilOrder(z1, z2);
    if ka == kb {
      assert Civil(z1) == Civil(z2);
      CivilOrder(z2, z1);
    }
  }

  /** Two YYYY-MM-DD keys compare as strings like their (year, month, day) fields. */
  lemma KeyCompare(ka: string, kb: string)
    requires IsExtendedDate(ka) && IsExtendedDate(kb)
    ensures StrLess(ka, kb) <==> DateBefore(KeyDate(ka), KeyDate(kb))
    ensures ka == kb <==> KeyDate(ka) == KeyDate(kb)
  {
    var ra, rb := ("-" + ka[5..7]) + ("-" + ka[8..]), ("-" + kb[5..7]) + ("-" + kb[8..]);
    assert ka == ka[..4] + ra;
    assert kb == kb[..4] + rb;
    StrLessConcat(ka[..4], kb[..4], ra, rb);
    DigitsCompare(ka[..4], kb[..4]);
    RestCompare(ka[5..7], kb[5..7], ka[8..], kb[8..]);
  }

  /** The civil fields a YYYY-MM-DD key spells (not necessarily a real date). */
  function KeyDate(k: string): Date
    requires IsExtendedDate(k)
  {
    Date(Value(k[..4]), Value(k[5..7]), Value(k[8..]))
  }

  /** Digit strings of one length compare and coincide as their values do. */
  lemma DigitsCompare(s: string, t: string)
    requires AllDigits(s) && AllDigits(t) && |s| == |t| >= 1
    ensures StrLess(s, t) <==> Value(s) < Value(t)
    ensures s == t <==> Value(s) == Value(t)
  {
    StrLessDigits(s, t);
    if Value(s) == Value(t) {
      ValueInjective(s, t);
    }
  }

  lemma DashCompare(x: string, y: string)
    requires |x| == |y|
    ensures StrLess("-" + x, "-" + y) <==> StrLess(x, y)
    ensures "-" + x == "-" + y <==> x == y
  {
    StrLessConcat("-", "-", x, y);
    assert !StrLess("-", "-");
    if "-" + x == "-" + y {
      assert x == ("-" + x)[1..];
    }
  }

  /** The "-MM-DD" tails compare like (month, day). */
  lemma RestCompare(ma: string, mb: string, da: string, db: string)
    requires AllDigits(ma) && AllDigits(mb) && AllDigits(da) && AllDigits(db)
    requires |ma| == |mb| == |da| == |db| == 2
    ensures StrLess(("-" + ma) + ("-" + da), ("-" + mb) + ("-" + db)) <==>
      Value(ma) < Value(mb) || (Value(ma) == Value(mb) && Value(da) < Value(db))
    ensures ("-" + ma) + ("-" + da) == ("-" + mb) + ("-" + db) <==>
      Value(ma) == Value(mb) && Value(da) == Value(db)
  {
    var a, b, c, d := "-" + ma, "-" + mb, "-" + da, "-" + db;
    PairCompare(a, b, c, d);
    DashCompare(ma, mb);
    DigitsCompare(ma, mb);
    if Value(ma) == Value(mb) {
      DashCompare(da, db);
      DigitsCompare(da, db);
    }
  }

  /** Concatenations of equal-length prefixes compare lexicographically, part by part. */
  lemma PairCompare(a: string, b: string, c: string, d: string)
    requires |a| == |b|
    ensures StrLess(a + c, b + d) <==> StrLess(a, b) || (a == b && StrLess(c, d))
    ensures a + c == b + d <==> a == b && c == d
  {
    StrLessConcat(a, b, c, d);
    if a + c == b + d {
      assert a == (a + c)[..|a|] && b == (b + d)[..|a|];
      assert c == (a + c)[|a|..] && d == (b + d)[|a|..];
    }
  }

  /** ISO_LOCAL_DATE resolves strictly: February 29th of a common year is rejected. */
  lemma StrictRejectsCommonLeapDay()
    ensures ParseKey("2023-02-29") == None
  {
    var k := "2023-02-29";
    KeyDigits(k);
    assert Value(k[..4]) == 2023 && Value(k[5..7]) == 2;
    assert !IsLeapYear(2023);
    ParseKeyRejectsNonDates(k);
  }

  /** A thirteenth month is rejected. */
  lemma StrictRejectsMonth13()
    ensures ParseKey("2024-13-01") == None
  {
    KeyDigits("2024-13-01");
    ParseKeyRejectsNonDates("2024-13-01");
  }

  /** February 29th of a leap year is accepted. */
  lemma StrictAcceptsLeapDay()
    ensures ParseKey("2024-02-29") == Some(EpochDay(2024, 2, 29))
  {
    KeyDigits("2024-02-29");
    ParseKeyRejectsNonDates("2024-02-29");
    CivilOfEpochDay(Date(2024, 2, 29));
  }

  /** The three fields of a YYYY-MM-DD key, digit by digit. */
  lemma KeyDigits(k: string)
    requires IsExtendedDate(k)
    ensures Value(k[..4]) == 1000 * DigitValue(k[0]) + 100 * DigitValue(k[1]) + 10 * DigitValue(k[2]) + DigitValue(k[3])
    ensures Value(k[5..7]) == 10 * DigitValue(k[5]) + DigitValue(k[6])
    ensures Value(k[8..]) == 10 * DigitValue(k[8]) + DigitValue(k[9])
  {
    ValueOfFour(k[..4]);
    ValueOfTwo(k[5..7]);
    ValueOfTwo(k[8..]);
  }
}
