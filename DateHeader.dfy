/** `_parse_date_column` and the `Data` string built from its result. */
module DateHeader {
  import opened Wrappers
  import opened Schema
  import Text
  import Numbers
  import Months

  /** What `_parse_date_column` returns: `month_map.get(...)` (possibly `None`) and the year. */
  datatype HeaderDate = HeaderDate(month: Option<nat>, year: int)

  /**
   * `_parse_date_column`: strip the header, split it on '/' into exactly two
   * tokens, look up the stripped month token, and add 2000 to `int()` of the
   * year token. An unknown abbreviation is not an error here: it gives `None`.
   */
  function ParseDateColumn(col: string): (r: Result<HeaderDate, TransformError>)
    ensures r.Success? && r.value.month.Some? ==> 1 <= r.value.month.value <= 12 && r.value.month.value in Months.MonthNames
    ensures r.Failure? ==> r.error == HeaderShape || r.error == YearNotInteger
  {
    var parts := Tokens(col);
    if |parts| != 2 then Failure(HeaderShape) else ParseTokens(parts[0], parts[1])
  }

  /** The '/'-separated tokens of the stripped header. */
  function Tokens(col: string): seq<string> {
    Text.SplitOn(Text.Strip(col), '/')
  }

  /** The header has one more token than it has '/' characters (the margins stripped hold none). */
  lemma TokensCount(col: string)
    ensures |Tokens(col)| == Text.Count(col, '/') + 1
  {
    Text.CountStrip(col, '/');
  }

  /** Month lookup and year conversion for the two tokens of a well-shaped header. */
  function ParseTokens(monthToken: string, yearToken: string): (r: Result<HeaderDate, TransformError>)
    ensures r.Failure? ==> r.error == YearNotInteger
    ensures r.Success? && r.value.month.Some? ==> 1 <= r.value.month.value <= 12 && r.value.month.value in Months.MonthNames
  {
    match Numbers.ParseInt(yearToken)
    case None => Failure(YearNotInteger)
    case Some(y) => Success(HeaderDate(Months.MonthOf(Text.Strip(monthToken)), 2000 + y))
  }

  /** `f"{year}-{month:02d}-01"`. */
  function DateString(year: int, month: nat): string {
    Numbers.IntToString(year) + "-" + Numbers.Pad2(month) + "-01"
  }

  /** The header is refused for its shape exactly when it does not hold exactly one '/'. */
  lemma ParseDateColumnShape(col: string)
    ensures ParseDateColumn(col) == Failure(HeaderShape) <==> Text.Count(col, '/') != 1
  {
    TokensCount(col);
  }

  /** Whitespace around a header of two '/'-free tokens does not change the tokens. */
  lemma TokensPadded(p: string, monthToken: string, yearToken: string, q: string)
    requires Text.AllSpace(p) && Text.AllSpace(q)
    requires '/' !in monthToken && '/' !in yearToken
    requires Text.IsStripped(monthToken + "/" + yearToken)
    ensures Tokens(p + monthToken + "/" + yearToken + q) == [monthToken, yearToken]
  {
    var inner := monthToken + "/" + yearToken;
    assert p + monthToken + "/" + yearToken + q == p + inner + q;
    Text.StripPadded(p, inner, q);
    Text.SplitPair(monthToken, yearToken, '/');
  }

  /** The year token of an integer, after whitespace, holds no '/' and ends in a digit. */
  lemma YearTokenShape(t: string, yy: int)
    requires Text.AllSpace(t)
    ensures '/' !in t + Numbers.IntToString(yy)
    ensures Numbers.IsDigit((t + Numbers.IntToString(yy))[|t + Numbers.IntToString(yy)| - 1])
  {
    var year := Numbers.IntToString(yy);
    var digits := Numbers.NatToString(if yy < 0 then -yy else yy);
    assert Numbers.AllDigits(digits);
    assert year == digits || year == "-" + digits;
    assert year[|year| - 1] == digits[|digits| - 1];
    assert '/' !in t;
  }

  /** A month token is its abbreviation followed by whitespace. */
  lemma MonthTokenOf(m: nat, r: string)
    requires 1 <= m <= 12
    requires Text.AllSpace(r)
    ensures Months.MonthOf(Text.Strip(Months.Abbreviations[m - 1] + r)) == Some(m)
    ensures '/' !in Months.Abbreviations[m - 1] + r
  {
    var abbr := Months.Abbreviations[m - 1];
    Months.AbbreviationPlain(m);
    Text.StripPadded("", abbr, r);
    assert "" + abbr + r == abbr + r;
    Months.MonthOfAbbreviation(m);
    assert '/' !in r;
  }

  /** A year token of digits after whitespace holds no '/', ends in a digit and reads as the digits' value. */
  lemma {:induction false} YearDigitsOf(t: string, d: string)
    requires Numbers.AllIntSpace(t) && |d| > 0 && Numbers.AllDigits(d)
    ensures '/' !in t + d
    ensures Numbers.IsDigit((t + d)[|t + d| - 1])
    ensures Numbers.ParseInt(t + d) == Some(Numbers.DigitsValue(d))
  {
    assert '/' !in t && '/' !in d;
    assert (t + d)[|t + d| - 1] == d[|d| - 1];
    Numbers.ParseIntDigits(t, d, "");
    assert t + d + "" == t + d;
  }

  /** A year token is whitespace followed by `str` of an integer. */
  lemma {:induction false} YearTokenOf(t: string, yy: int)
    requires Numbers.AllIntSpace(t)
    ensures Numbers.ParseInt(t + Numbers.IntToString(yy)) == Some(yy)
  {
    Numbers.ParseIntPadded(t, yy, "");
    assert t + Numbers.IntToString(yy) + "" == t + Numbers.IntToString(yy);
  }

  /** Two tokens that read as a known month and an integer give that month and the year plus 2000. */
  lemma ParseTokensOf(monthToken: string, yearToken: string, m: nat, yy: int)
    requires Months.MonthOf(Text.Strip(monthToken)) == Some(m)
    requires Numbers.ParseInt(yearToken) == Some(yy)
    ensures ParseTokens(monthToken, yearToken) == Success(HeaderDate(Some(m), 2000 + yy))
  {
    var res := ParseTokens(monthToken, yearToken);
    assert res.Success? && res.value.year == 2000 + yy;
    assert res.value.month == Some(m);
    assert res.value == HeaderDate(Some(m), 2000 + yy);
  }

  /**
   * The joined tokens of a `Mon/...` header start with a letter and end with
   * the '/' or with a year token that does not end in whitespace.
   */
  lemma {:induction false} HeaderBodyStripped(m: nat, r: string, yearToken: string)
    requires 1 <= m <= 12
    requires |yearToken| == 0 || !Text.IsSpace(yearToken[|yearToken| - 1])
    ensures Text.IsStripped(Months.Abbreviations[m - 1] + r + "/" + yearToken)
  {
    var abbr := Months.Abbreviations[m - 1];
    var inner := abbr + r + "/" + yearToken;
    Months.AbbreviationPlain(m);
    assert inner[0] == abbr[0];
    if |yearToken| == 0 {
      assert inner[|inner| - 1] == '/';
    } else {
      assert inner[|inner| - 1] == yearToken[|yearToken| - 1];
    }
  }

  /**
   * A header `Mon/YY`, with any whitespace around it, after the month token
   * and before the year token, is read as month `m` and year 2000 plus the
   * value of the digits `d`; leading zeros, as in `Jan/05`, are allowed.
   */
  lemma {:induction false} ParseDateColumnOfHeader(m: nat, d: string, v: nat, p: string, r: string, t: string, q: string)
    requires 1 <= m <= 12
    requires Text.AllSpace(p) && Text.AllSpace(r) && Numbers.AllIntSpace(t) && Text.AllSpace(q)
    requires |d| > 0 && Numbers.AllDigits(d) && v == Numbers.DigitsValue(d)
    ensures ParseDateColumn(p + Months.Abbreviations[m - 1] + r + "/" + (t + d) + q)
      == Success(HeaderDate(Some(m), 2000 + v))
  {
    YearDigitsOf(t, d);
    ParseDateColumnOfYearToken(m, p, r, t + d, q, v);
  }

  /**
   * The year token may be `str()` of any integer, a sign included: a padded
   * header `Mon/<str(yy)>` is read as month `m` and year `2000 + yy`.
   */
  lemma {:induction false} ParseDateColumnOfIntHeader(m: nat, yy: int, p: string, r: string, t: string, q: string)
    requires 1 <= m <= 12
    requires Text.AllSpace(p) && Text.AllSpace(r) && Numbers.AllIntSpace(t) && Text.AllSpace(q)
    ensures ParseDateColumn(p + Months.Abbreviations[m - 1] + r + "/" + t + Numbers.IntToString(yy) + q)
      == Success(HeaderDate(Some(m), 2000 + yy))
  {
    var head := p + Months.Abbreviations[m - 1] + r + "/";
    var year := Numbers.IntToString(yy);
    assert head + t + year + q == head + (t + year) + q;
    Numbers.IntSpaceIsSpace(t);
    YearTokenShape(t, yy);
    YearTokenOf(t, yy);
    ParseDateColumnOfYearToken(m, p, r, t + year, q, yy);
  }

  /** The month token of a header is its abbreviation and the whitespace after it. */
  lemma HeaderRegrouped(p: string, abbr: string, r: string, yearToken: string, q: string)
    ensures p + abbr + r + "/" + yearToken + q == p + (abbr + r) + "/" + yearToken + q
  {
    assert p + abbr + r == p + (abbr + r);
  }

  /** A padded header of a known abbreviation and a year token that `int()` reads as `yy`. */
  lemma {:induction false} ParseDateColumnOfYearToken(m: nat, p: string, r: string, yearToken: string, q: string, yy: int)
    requires 1 <= m <= 12
    requires Text.AllSpace(p) && Text.AllSpace(r) && Text.AllSpace(q)
    requires '/' !in yearToken && |yearToken| > 0 && Numbers.IsDigit(yearToken[|yearToken| - 1])
    requires Numbers.ParseInt(yearToken) == Some(yy)
    ensures ParseDateColumn(p + Months.Abbreviations[m - 1] + r + "/" + yearToken + q)
      == Success(HeaderDate(Some(m), 2000 + yy))
  {
    assert !Text.IsSpace(yearToken[|yearToken| - 1]);
    var monthToken := Months.Abbreviations[m - 1] + r;
    var col := p + Months.Abbreviations[m - 1] + r + "/" + yearToken + q;
    HeaderRegrouped(p, Months.Abbreviations[m - 1], r, yearToken, q);
    MonthTokenOf(m, r);
    HeaderBodyStripped(m, r, yearToken);
    TokensPadded(p, monthToken, yearToken, q);
    ParseDateColumnOfParts(col, monthToken, yearToken, m, yy);
  }

  /** A header that splits into a known month token and an integer year token is read as that month and year. */
  lemma {:induction false} ParseDateColumnOfParts(col: string, monthToken: string, yearToken: string, m: nat, yy: int)
    requires Tokens(col) == [monthToken, yearToken]
    requires Months.MonthOf(Text.Strip(monthToken)) == Some(m)
    requires Numbers.ParseInt(yearToken) == Some(yy)
    ensures ParseDateColumn(col) == Success(HeaderDate(Some(m), 2000 + yy))
  {
    ParseTokensOf(monthToken, yearToken, m, yy);
  }

  /**
   * A padded header of a known abbreviation whose year token `int()` refuses
   * fails with `YearNotInteger`. The year token holds no '/' and, so that the
   * trailing whitespace belongs to `q`, does not end in whitespace; it may be
   * empty, as in `Mar/`.
   */
  lemma {:induction false} ParseDateColumnYearRefused(m: nat, p: string, r: string, yearToken: string, q: string)
    requires 1 <= m <= 12
    requires Text.AllSpace(p) && Text.AllSpace(r) && Text.AllSpace(q)
    requires '/' !in yearToken && (|yearToken| == 0 || !Text.IsSpace(yearToken[|yearToken| - 1]))
    requires Numbers.ParseInt(yearToken) == None
    ensures ParseDateColumn(p + Months.Abbreviations[m - 1] + r + "/" + yearToken + q) == Failure(YearNotInteger)
  {
    var monthToken := Months.Abbreviations[m - 1] + r;
    HeaderRegrouped(p, Months.Abbreviations[m - 1], r, yearToken, q);
    MonthTokenOf(m, r);
    HeaderBodyStripped(m, r, yearToken);
    TokensPadded(p, monthToken, yearToken, q);
  }

  /**
   * An information separator (U+001C to U+001F) between the `/` and the year
   * digits is refused: `strip()` leaves it inside the header, and `int()`
   * does not skip it.
   */
  lemma {:induction false} ParseDateColumnSeparatedYear(m: nat, p: string, r: string, t: string, c: char, y: string, q: string)
    requires 1 <= m <= 12
    requires Text.AllSpace(p) && Text.AllSpace(r) && Text.AllSpace(t) && Text.AllSpace(q)
    requires Numbers.IsInfoSeparator(c)
    requires '/' !in y && |y| > 0 && Numbers.IsDigit(y[|y| - 1])
    ensures ParseDateColumn(p + Months.Abbreviations[m - 1] + r + "/" + (t + [c] + y) + q) == Failure(YearNotInteger)
  {
    var yearToken := t + [c] + y;
    assert '/' !in t;
    assert yearToken[|yearToken| - 1] == y[|y| - 1];
    assert !Text.IsSpace(y[|y| - 1]);
    Numbers.ParseIntLeadingSeparator(t, c, y);
    ParseDateColumnYearRefused(m, p, r, yearToken, q);
  }

  /** `Mar/\x1c24` is refused: its year token does not read as an integer. */
  lemma ParseDateColumnSeparatorExample()
    ensures ParseDateColumn("Mar/\U{1c}24") == Failure(YearNotInteger)
  {
    assert "" + Months.Abbreviations[2] + "" + "/" + ("" + ['\U{1c}'] + "24") + "" == "Mar/\U{1c}24";
    ParseDateColumnSeparatedYear(3, "", "", "", '\U{1c}', "24", "");
  }

  /** The worked example: `Mar/24` is March 2024. */
  lemma ParseDateColumnExample()
    ensures ParseDateColumn("Mar/24") == Success(HeaderDate(Some(3), 2024))
  {
    assert Numbers.IntToString(24) == "24";
    assert "" + Months.Abbreviations[2] + "" + "/" + "" + Numbers.IntToString(24) + "" == "Mar/24";
    ParseDateColumnOfIntHeader(3, 24, "", "", "", "");
  }

  /**
   * A year token that is empty or ends in something other than whitespace or
   * a digit is refused: `Mar/`, `Mar/abc` and `Mar/24x` fail with `YearNotInteger`.
   */
  lemma ParseDateColumnNoFinalDigit(m: nat, p: string, r: string, yearToken: string, q: string)
    requires 1 <= m <= 12
    requires Text.AllSpace(p) && Text.AllSpace(r) && Text.AllSpace(q)
    requires '/' !in yearToken
    requires |yearToken| == 0
      || (!Text.IsSpace(yearToken[|yearToken| - 1]) && !Numbers.IsDigit(yearToken[|yearToken| - 1]))
    ensures ParseDateColumn(p + Months.Abbreviations[m - 1] + r + "/" + yearToken + q) == Failure(YearNotInteger)
  {
    Numbers.ParseIntNoFinalDigit(yearToken);
    ParseDateColumnYearRefused(m, p, r, yearToken, q);
  }

  /** A zero-padded year: `Jan/05` is January 2005. */
  lemma ParseDateColumnPaddedYearExample()
    ensures ParseDateColumn("Jan/05") == Success(HeaderDate(Some(1), 2005))
  {
    assert Numbers.DigitsValue("05") == 5 by {
      assert "05"[..1] == "0" && "0"[..0] == "";
    }
    assert "" + Months.Abbreviations[0] + "" + "/" + ("" + "05") + "" == "Jan/05";
    ParseDateColumnOfHeader(1, "05", 5, "", "", "", "");
  }

  /** A month token outside the table gives no month, whatever the year token holds. */
  lemma ParseDateColumnUnknownMonth(col: string)
    requires |Tokens(col)| == 2
    requires Text.Strip(Tokens(col)[0]) !in Months.Abbreviations
    ensures ParseDateColumn(col).Success? ==> ParseDateColumn(col).value.month.None?
  {
  }

  /**
   * `Data` reads back as year, '-', a two-digit month, and "-01": the part
   * before the month is the year's digits and the month field holds the month.
   */
  lemma DateStringFields(year: nat, month: nat)
    requires 1 <= month <= 12
    ensures var s := DateString(year, month); var k := |s| - 6;
      && k > 0 && s[k] == '-' && s[k + 3] == '-' && s[k + 4..] == "01"
      && Numbers.AllDigits(s[..k]) && Numbers.DigitsValue(s[..k]) == year
      && (s[0] != '0' || year == 0)
      && Numbers.AllDigits(s[k + 1..k + 3]) && Numbers.DigitsValue(s[k + 1..k + 3]) == month
  {
    var y, mm := Numbers.IntToString(year), Numbers.Pad2(month);
    var s := DateString(year, month);
    assert s == y + "-" + mm + "-01";
    assert |s| - 6 == |y|;
    assert s[..|y|] == y;
    assert s[0] == y[0];
    assert s[|y| + 1..|y| + 3] == mm;
  }

  /** The `Data` string of a negative year is `-` before that of its magnitude. */
  lemma DateStringSign(year: int, month: nat)
    requires year < 0
    ensures DateString(year, month) == "-" + DateString(-year, month)
  {
    var d, mm := Numbers.NatToString(-year), Numbers.Pad2(month);
    assert Numbers.IntToString(year) == "-" + d;
    assert DateString(-year, month) == d + "-" + mm + "-01";
  }

  /**
   * A negative year, as a header `Mar/-2001` gives, is written with its sign:
   * `-`, the digits of its magnitude with no leading zero, `-`, the month in
   * two digits, `-01`.
   */
  lemma DateStringNegativeYear(year: int, month: nat)
    requires year < 0 && 1 <= month <= 12
    ensures var s := DateString(year, month); var k := |s| - 6;
      && k > 1 && s[0] == '-' && s[k] == '-' && s[k + 3] == '-' && s[k + 4..] == "01"
      && Numbers.AllDigits(s[1..k]) && Numbers.DigitsValue(s[1..k]) == -year && s[1] != '0'
      && Numbers.AllDigits(s[k + 1..k + 3]) && Numbers.DigitsValue(s[k + 1..k + 3]) == month
  {
    DateStringSign(year, month);
    DateStringFields(-year, month);
    SignedFields(DateString(-year, month), DateString(year, month));
  }

  /** The fields of `t` reappear one place further on in `"-" + t`. */
  lemma SignedFields(t: string, s: string)
    requires s == "-" + t
    requires var k := |t| - 6;
      && k > 0 && t[k] == '-' && t[k + 3] == '-' && t[k + 4..] == "01"
    ensures var k := |s| - 6;
      && k > 1 && s[0] == '-' && s[1..k] == t[..k - 1] && s[1] == t[0]
      && s[k] == '-' && s[k + 3] == '-' && s[k + 4..] == "01"
      && s[k + 1..k + 3] == t[k..k + 2]
  {
    var k := |s| - 6;
    assert s[1..k] == t[..k - 1];
    assert s[k + 1..k + 3] == t[k..k + 2];
    assert s[k + 4..] == t[k + 3..];
  }

  /** `Data` for month 3 of 2024 is `2024-03-01`. */
  lemma DateStringExample()
    ensures DateString(2024, 3) == "2024-03-01"
  {
    assert Numbers.IntToString(2024) == "2024";
    assert Numbers.Pad2(3) == "03";
  }

  /**
   * For four-digit years, `Data` strings compare as their (year, month)
   * pairs: sorting by `Data` sorts the records by date.
   */
  lemma DateStringChronological(y1: nat, m1: nat, y2: nat, m2: nat)
    requires 1000 <= y1 <= 9999 && 1000 <= y2 <= 9999
    requires 1 <= m1 <= 12 && 1 <= m2 <= 12
    ensures Text.StrLt(DateString(y1, m1), DateString(y2, m2)) <==> y1 < y2 || (y1 == y2 && m1 < m2)
    ensures DateString(y1, m1) == DateString(y2, m2) <==> y1 == y2 && m1 == m2
  {
    var a, b := Numbers.NatToString(y1), Numbers.NatToString(y2);
    var p, q := Numbers.Pad2(m1), Numbers.Pad2(m2);
    Numbers.NatToStringFourDigits(y1);
    Numbers.NatToStringFourDigits(y2);
    Numbers.DigitsOrder(a, b);
    Numbers.DigitsOrder(p, q);
    var x, z := "-" + p + "-01", "-" + q + "-01";
    assert DateString(y1, m1) == a + x;
    assert DateString(y2, m2) == b + z;
    Text.StrLtAppend(a, b, x, z);
    Text.AppendEqual(a, b, x, z);
    TailOrder(p, q);
  }

  /** The part after the year compares as the month fields. */
  lemma TailOrder(p: string, q: string)
    requires |p| == 2 && |q| == 2
    ensures Text.StrLt("-" + p + "-01", "-" + q + "-01") <==> Text.StrLt(p, q)
    ensures "-" + p + "-01" == "-" + q + "-01" <==> p == q
  {
    Text.StrLtAppend("-", "-", p + "-01", q + "-01");
    Text.StrLtAppend(p, q, "-01", "-01");
    Text.StrLtIrreflexive("-");
    Text.StrLtIrreflexive("-01");
    assert "-" + p + "-01" == "-" + (p + "-01");
    assert "-" + q + "-01" == "-" + (q + "-01");
    if "-" + p + "-01" == "-" + q + "-01" {
      assert p == ("-" + p + "-01")[1..3];
      assert q == ("-" + q + "-01")[1..3];
    }
  }
}
