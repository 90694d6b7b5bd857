/**
 * Decimal text and numbers: Python's `str(n)` and `f"{n:02d}"`, Python's
 * `int(s)`, and the decimal grammar `pd.to_numeric(s, errors='coerce')`
 * accepts for one string cell.
 */
module Numbers {
  import opened Wrappers
  import Text

  predicate IsDigit(c: char) {
    '0' <= c <= '9'
  }

  predicate AllDigits(s: string) {
    forall k :: 0 <= k < |s| ==> IsDigit(s[k])
  }

  function DigitValue(c: char): nat
    requires IsDigit(c)
  {
    (c as int) - ('0' as int)
  }

  function Digit(d: nat): (c: char)
    requires d < 10
    ensures IsDigit(c) && DigitValue(c) == d
  {
    (('0' as int) + d) as char
  }

  /** The value of a string of decimal digits, most significant first; "" is 0. */
  function DigitsValue(s: string): nat
    requires AllDigits(s)
    decreases |s|
  {
    if |s| == 0 then 0 else DigitsValue(s[..|s| - 1]) * 10 + DigitValue(s[|s| - 1])
  }

  function Pow10(n: nat): (p: nat)
    ensures p >= 1
  {
    if n == 0 then 1 else 10 * Pow10(n - 1)
  }

  /** One more digit after a shifted prefix: the arithmetic step of `DigitsValueAppend`. */
  lemma ShiftDigit(x: int, p: int, y: int, d: int)
    ensures (x * p + y) * 10 + d == x * (10 * p) + (y * 10 + d)
  {
  }

  /** Appending digits multiplies the value of the prefix by a power of ten. */
  lemma {:induction false} DigitsValueAppend(a: string, b: string)
    requires AllDigits(a) && AllDigits(b)
    ensures AllDigits(a + b)
    ensures DigitsValue(a + b) == DigitsValue(a) * Pow10(|b|) + DigitsValue(b)
    decreases |b|
  {
    if |b| == 0 {
      assert a + b == a;
    } else {
      var b' := b[..|b| - 1];
      var ab := a + b;
      assert ab[..|ab| - 1] == a + b';
      assert ab[|ab| - 1] == b[|b| - 1];
      DigitsValueAppend(a, b');
      ShiftDigit(DigitsValue(a), Pow10(|b'|), DigitsValue(b'), DigitValue(b[|b| - 1]));
    }
  }

  lemma {:induction false} Pow10Monotone(i: nat, j: nat)
    requires i <= j
    ensures Pow10(i) <= Pow10(j)
    decreases j
  {
    if i < j {
      Pow10Monotone(i, j - 1);
    }
  }

  /** A string of `n` digits has a value below `10^n`. */
  lemma {:induction false} DigitsValueBound(s: string)
    requires AllDigits(s)
    ensures DigitsValue(s) < Pow10(|s|)
    decreases |s|
  {
    if |s| > 0 {
      DigitsValueBound(s[..|s| - 1]);
    }
  }

  /** The value of a digit string, read from its first digit. */
  lemma {:induction false} DigitsValueFront(s: string)
    requires |s| > 0 && AllDigits(s)
    ensures DigitsValue(s) == DigitValue(s[0]) * Pow10(|s| - 1) + DigitsValue(s[1..])
    decreases |s|
  {
    if |s| == 1 {
      assert s[..0] == [];
      assert s[1..] == [];
    } else {
      var init := s[..|s| - 1];
      DigitsValueFront(init);
      assert s[1..][..|s| - 2] == init[1..];
      ShiftDigit(DigitValue(s[0]), Pow10(|s| - 2), DigitsValue(init[1..]), DigitValue(s[|s| - 1]));
    }
  }

  /**
   * On digit strings of the same length, the code-point order of the text is
   * the order of the values.
   */
  lemma {:induction false} DigitsOrder(a: string, b: string)
    requires |a| == |b| && AllDigits(a) && AllDigits(b)
    ensures Text.StrLt(a, b) <==> DigitsValue(a) < DigitsValue(b)
    ensures a == b <==> DigitsValue(a) == DigitsValue(b)
    decreases |a|
  {
    if |a| == 0 {
      assert a == b;
    } else {
      DigitsValueFront(a);
      DigitsValueFront(b);
      DigitsValueBound(a[1..]);
      DigitsValueBound(b[1..]);
      DigitsOrder(a[1..], b[1..]);
      FrontCompare(DigitValue(a[0]), DigitValue(b[0]), DigitsValue(a[1..]), DigitsValue(b[1..]), Pow10(|a| - 1));
      if a[0] == b[0] && a[1..] == b[1..] {
        assert a == [a[0]] + a[1..] && b == [b[0]] + b[1..];
      }
    }
  }

  /** Two numbers written as a leading digit times `p` plus a remainder below `p` compare digit first. */
  lemma FrontCompare(da: nat, db: nat, ra: nat, rb: nat, p: nat)
    requires ra < p && rb < p
    ensures da < db ==> da * p + ra < db * p + rb
    ensures db < da ==> db * p + rb < da * p + ra
    ensures da == db ==> (da * p + ra < db * p + rb <==> ra < rb) && (da * p + ra == db * p + rb <==> ra == rb)
  {
    if da < db {
      MulStep(da, db, p);
    } else if db < da {
      MulStep(db, da, p);
    }
  }

  lemma MulStep(x: nat, y: nat, p: nat)
    requires x < y
    ensures x * p + p <= y * p
  {
    var d := y - x - 1;
    assert y * p == (x + 1 + d) * p;
    assert (x + 1 + d) * p == x * p + p + d * p;
    assert d * p >= 0;
  }

  /** A digit string without a leading zero has a value of at least `10^(n-1)`. */
  lemma DigitsValueLeading(s: string)
    requires |s| > 0 && AllDigits(s) && s[0] != '0'
    ensures DigitsValue(s) >= Pow10(|s| - 1)
  {
    DigitsValueFront(s);
    assert DigitValue(s[0]) >= 1;
  }

  /**
   * Python's `str(n)` for a natural number: non-empty decimal digits whose
   * value is `n`, without a leading zero unless `n` is 0.
   */
  function NatToString(n: nat): (r: string)
    ensures |r| > 0 && AllDigits(r) && DigitsValue(r) == n
    ensures r[0] == '0' ==> n == 0
    decreases n
  {
    if n < 10 then [Digit(n)] else NatToString(n / 10) + [Digit(n % 10)]
  }

  /** Years from 1000 to 9999 are written with four digits. */
  lemma NatToStringFourDigits(n: nat)
    requires 1000 <= n <= 9999
    ensures |NatToString(n)| == 4
  {
    var r := NatToString(n);
    DigitsValueBound(r);
    DigitsValueLeading(r);
    if |r| < 4 {
      Pow10Monotone(|r|, 3);
    } else if |r| > 4 {
      Pow10Monotone(4, |r| - 1);
    }
  }

  /** Python's `str(i)` (and `f"{i}"`) for any integer. */
  function IntToString(i: int): string {
    if i < 0 then "-" + NatToString(-i) else NatToString(i)
  }

  /** Python's `f"{n:02d}"` for a natural number: at least two digits, zero-padded, value `n`. */
  function Pad2(n: nat): (r: string)
    ensures |r| >= 2 && AllDigits(r) && DigitsValue(r) == n
    ensures n >= 10 ==> r == NatToString(n)
    ensures n < 100 ==> |r| == 2
  {
    if n < 10 then
      assert DigitsValue("0") == 0 by { assert "0"[..0] == ""; }
      DigitsValueAppend("0", NatToString(n));
      "0" + NatToString(n)
    else NatToString(n)
  }

  /** Digits, optionally grouped by single underscores, as Python's `int()` accepts them. */
  predicate IsDigitRun(s: string) {
    && |s| > 0 && IsDigit(s[0]) && IsDigit(s[|s| - 1])
    && (forall k :: 0 <= k < |s| ==> IsDigit(s[k]) || s[k] == '_')
    && (forall k :: 0 <= k < |s| - 1 ==> GroupedAt(s, k))
  }

  /** An underscore at `k` is followed by a digit. */
  predicate GroupedAt(s: string, k: nat)
    requires k < |s| - 1
  {
    s[k] == '_' ==> IsDigit(s[k + 1])
  }

  /** The digits of a digit run, with the grouping underscores removed. */
  function DropUnderscores(s: string): (r: string)
    requires forall k :: 0 <= k < |s| ==> IsDigit(s[k]) || s[k] == '_'
    ensures AllDigits(r) && |r| <= |s|
    ensures '_' !in s ==> r == s
    decreases |s|
  {
    if |s| == 0 then ""
    else (if s[0] == '_' then "" else [s[0]]) + DropUnderscores(s[1..])
  }

  /**
   * The ASCII information separators U+001C to U+001F: `str.isspace()` holds
   * for them, but `int()` skips only ASCII whitespace below U+0080.
   */
  predicate IsInfoSeparator(c: char) {
    '\U{1c}' <= c <= '\U{1f}'
  }

  /** The whitespace `int()` skips around a number. */
  predicate IsIntSpace(c: char) {
    Text.IsSpace(c) && !IsInfoSeparator(c)
  }

  predicate AllIntSpace(s: string) {
    forall k :: 0 <= k < |s| ==> IsIntSpace(s[k])
  }

  lemma IntSpaceIsSpace(s: string)
    requires AllIntSpace(s)
    ensures Text.AllSpace(s)
  {
  }

  /**
   * Python's `int(s)` in base 10: surrounding whitespace, an optional sign,
   * then a digit run. `None` stands for the `ValueError` Python raises.
   * `int()` stops skipping whitespace at an information separator, which is
   * neither a sign, a digit nor `_`: so the margins `strip()` would remove
   * must hold none.
   */
  function ParseInt(s: string): Option<int> {
    if AllIntSpace(Text.LeadingSpace(s)) && AllIntSpace(Text.TrailingSpace(s)) then
      ParseSignedRun(Text.Strip(s))
    else None
  }

  /** An optional sign followed by a digit run; `None` for anything else. */
  function ParseSignedRun(t: string): Option<int> {
    var negative := |t| > 0 && t[0] == '-';
    var body := if |t| > 0 && (t[0] == '-' || t[0] == '+') then t[1..] else t;
    if IsDigitRun(body) then
      var v: int := DigitsValue(DropUnderscores(body));
      Some(if negative then -v else v)
    else None
  }

  /** The text of an integer has no whitespace margin. */
  lemma IntToStringStripped(i: int)
    ensures Text.IsStripped(IntToString(i))
  {
    var s := IntToString(i);
    var digits := NatToString(if i < 0 then -i else i);
    assert s[|s| - 1] == digits[|digits| - 1];
    assert s[0] == '-' || s[0] == digits[0];
  }

  /** A plain digit string is a digit run, and has no underscores to drop. */
  lemma DigitsAreRun(digits: string)
    requires |digits| > 0 && AllDigits(digits)
    ensures IsDigitRun(digits) && DropUnderscores(digits) == digits
  {
    assert '_' !in digits;
  }

  /** `int(str(i)) == i`: Python's integer rendering and parsing are inverse. */
  lemma ParseIntOfIntToString(i: int)
    ensures ParseInt(IntToString(i)) == Some(i)
  {
    assert "" + IntToString(i) + "" == IntToString(i);
    ParseIntPadded("", i, "");
  }

  /**
   * An information separator after leading whitespace makes `int()` fail,
   * whatever follows: `int('\x1c24')` raises.
   */
  lemma ParseIntLeadingSeparator(p: string, c: char, s: string)
    requires Text.AllSpace(p) && IsInfoSeparator(c)
    ensures ParseInt(p + [c] + s) == None
  {
    var x := p + [c] + s;
    assert forall k :: 0 <= k < |p| + 1 ==> Text.IsSpace(x[k]) by {
      forall k | 0 <= k < |p| + 1 ensures Text.IsSpace(x[k]) {
        if k < |p| { assert x[k] == p[k]; } else { assert x[k] == c; }
      }
    }
    Text.SpaceRunEndPast(x, 0, |p| + 1);
    var lead := Text.LeadingSpace(x);
    assert |lead| > |p| && lead[|p|] == x[|p|] == c;
    assert !IsIntSpace(lead[|p|]);
  }

  /**
   * A token that is empty or ends in a character that is neither whitespace
   * nor a digit is refused by `int()`, whatever comes before:
   * `int('')`, `int('abc')`, `int(' 24x')` raise.
   */
  lemma ParseIntNoFinalDigit(s: string)
    requires |s| == 0 || (!Text.IsSpace(s[|s| - 1]) && !IsDigit(s[|s| - 1]))
    ensures ParseInt(s) == None
  {
    var t := Text.Strip(s);
    Text.StripMargins(s);
    if |t| > 0 {
      assert s[|s| - 1] == t[|t| - 1];
      NoFinalDigitRefused(t);
    }
  }

  lemma NoFinalDigitRefused(t: string)
    requires |t| > 0 && !IsDigit(t[|t| - 1])
    ensures ParseSignedRun(t) == None
  {
    var body := if t[0] == '-' || t[0] == '+' then t[1..] else t;
    assert |body| == 0 || body[|body| - 1] == t[|t| - 1];
  }

  /** Whitespace other than the information separators, around the text of an integer, is ignored by `int()`. */
  lemma ParseIntPadded(p: string, i: int, q: string)
    requires AllIntSpace(p) && AllIntSpace(q)
    ensures ParseInt(p + IntToString(i) + q) == Some(i)
  {
    IntToStringStripped(i);
    IntSpaceIsSpace(p);
    IntSpaceIsSpace(q);
    Text.StripPadded(p, IntToString(i), q);
    Text.MarginsPadded(p, IntToString(i), q);
    ParseSignedRunOfIntToString(i);
  }

  /**
   * `int()` of a plain digit string, leading zeros allowed and whitespace
   * other than the information separators around it, is the digits' value:
   * `int(' 05 ') == 5`.
   */
  lemma {:induction false} ParseIntDigits(p: string, d: string, q: string)
    requires AllIntSpace(p) && AllIntSpace(q)
    requires |d| > 0 && AllDigits(d)
    ensures ParseInt(p + d + q) == Some(DigitsValue(d))
  {
    assert IsDigit(d[0]) && IsDigit(d[|d| - 1]);
    IntSpaceIsSpace(p);
    IntSpaceIsSpace(q);
    Text.StripPadded(p, d, q);
    Text.MarginsPadded(p, d, q);
    ParseSignedRunOfDigits(d);
  }

  /** A run of digits with no sign reads as its value. */
  lemma ParseSignedRunOfDigits(d: string)
    requires |d| > 0 && AllDigits(d)
    ensures ParseSignedRun(d) == Some(DigitsValue(d))
  {
    DigitsAreRun(d);
  }

  lemma ParseSignedRunOfIntToString(i: int)
    ensures ParseSignedRun(IntToString(i)) == Some(i)
  {
    var t := IntToString(i);
    var digits := NatToString(if i < 0 then -i else i);
    DigitsAreRun(digits);
    if i < 0 {
      assert t[0] == '-' && t[1..] == digits;
    } else {
      assert t == digits && IsDigit(t[0]);
    }
  }

  /** The whitespace that the C parser under `pd.to_numeric` skips: ASCII blanks. */
  predicate IsBlank(c: char) {
    c == ' ' || '\t' <= c <= '\r'
  }

  predicate AllBlank(s: string) {
    forall k :: 0 <= k < |s| ==> IsBlank(s[k])
  }

  /** Length of the longest all-digit prefix of `s`. */
  function DigitSpan(s: string): (n: nat)
    ensures n <= |s| && AllDigits(s[..n]) && (n < |s| ==> !IsDigit(s[n]))
    decreases |s|
  {
    if |s| > 0 && IsDigit(s[0]) then
      var n := 1 + DigitSpan(s[1..]);
      assert s[..n] == [s[0]] + s[1..][..n - 1];
      n
    else 0
  }

  /** Length of the longest all-blank prefix of `s`. */
  function BlankSpan(s: string): (n: nat)
    ensures n <= |s| && AllBlank(s[..n]) && (n < |s| ==> !IsBlank(s[n]))
    decreases |s|
  {
    if |s| > 0 && IsBlank(s[0]) then
      var n := 1 + BlankSpan(s[1..]);
      assert s[..n] == [s[0]] + s[1..][..n - 1];
      n
    else 0
  }

  /**
   * The optional exponent `[eE][+-]?digits` at the start of `x`: its value and
   * what follows it. `None` when an exponent marker has no digits.
   */
  function ParseExponent(x: string): Option<(int, string)> {
    if |x| > 0 && (x[0] == 'e' || x[0] == 'E') then
      var y := x[1..];
      var negative := |y| > 0 && y[0] == '-';
      var z := if |y| > 0 && (y[0] == '-' || y[0] == '+') then y[1..] else y;
      var d := DigitSpan(z);
      if d == 0 then None
      else
        var v: int := DigitsValue(z[..d]);
        Some((if negative then -v else v, z[d..]))
    else Some((0, x))
  }

  /**
   * `pd.to_numeric(s, errors='coerce')` on one string: blanks, an optional
   * sign, digits with at most one decimal point (at least one digit in all),
   * an optional exponent, blanks. The value is exact; `None` stands for the
   * NaN that pandas returns for anything else.
   */
  function ParseNumber(s: string): Option<real> {
    var t := s[BlankSpan(s)..];
    if |t| > 0 && t[0] == '-' then
      match ParseUnsigned(t[1..])
      case None => None
      case Some(m) => Some(-m)
    else if |t| > 0 && t[0] == '+' then ParseUnsigned(t[1..])
    else ParseUnsigned(t)
  }

  /** The unsigned part of a number: integer digits, an optional point and fraction digits, the tail. */
  function ParseUnsigned(u: string): Option<real> {
    var i := DigitSpan(u);
    var v := u[i..];
    var w := if |v| > 0 && v[0] == '.' then v[1..] else v;
    var f := DigitSpan(w);
    if i + f == 0 then None else ParseTail(u[..i], w[..f], w[f..])
  }

  /** The exponent and trailing blanks after the digits `ip.fp`. */
  function ParseTail(ip: string, fp: string, x: string): Option<real>
    requires AllDigits(ip) && AllDigits(fp)
  {
    match ParseExponent(x)
    case None => None
    case Some((e, rest)) => if AllBlank(rest) then Some(DecimalValue(ip, fp, e)) else None
  }

  /** The exact value of `ip.fp` times ten to the power `e`. */
  function DecimalValue(ip: string, fp: string, e: int): real
    requires AllDigits(ip) && AllDigits(fp)
  {
    var digits := DigitsValue(ip + fp);
    var k := e - |fp|;
    if k >= 0 then (digits * Pow10(k)) as real else digits as real / Pow10(-k) as real
  }

  lemma DigitSpanAll(s: string)
    requires AllDigits(s)
    ensures DigitSpan(s) == |s|
  {
  }

  /** A plain digit string is read as its value. */
  lemma ParseUnsignedDigits(d: string)
    requires |d| > 0 && AllDigits(d)
    ensures ParseUnsigned(d) == Some(DigitsValue(d) as real)
  {
    DigitSpanAll(d);
    assert d[..|d|] == d && d[|d|..] == "";
    assert ParseUnsigned(d) == ParseTail(d, "", "");
    assert ParseExponent("") == Some((0, ""));
    assert d + "" == d;
    assert DecimalValue(d, "", 0) == (DigitsValue(d) * Pow10(0)) as real;
  }

  /** A string that starts with a digit has neither leading blanks nor a sign. */
  lemma ParseNumberOfDigitLed(s: string)
    requires |s| > 0 && IsDigit(s[0])
    ensures ParseNumber(s) == ParseUnsigned(s)
  {
    assert !IsBlank(s[0]);
    assert s[BlankSpan(s)..] == s;
  }

  /** `pd.to_numeric(str(i))` is `i`. */
  lemma ParseNumberOfIntToString(i: int)
    ensures ParseNumber(IntToString(i)) == Some(i as real)
  {
    var s := IntToString(i);
    var digits := NatToString(if i < 0 then -i else i);
    ParseUnsignedDigits(digits);
    if i < 0 {
      assert !IsBlank(s[0]);
      assert s[BlankSpan(s)..] == s;
      assert s[1..] == digits;
    } else {
      ParseNumberOfDigitLed(s);
    }
  }

  /** The value of `ip.fp` with no exponent is its digits scaled down by the length of `fp`. */
  lemma DecimalValueNoExponent(ip: string, fp: string)
    requires AllDigits(ip) && AllDigits(fp)
    ensures AllDigits(ip + fp)
    ensures DecimalValue(ip, fp, 0) == DigitsValue(ip + fp) as real / Pow10(|fp|) as real
  {
  }

  /** A plain decimal `ip.fp` denotes the digits of `ip` and `fp` scaled down by the length of `fp`. */
  lemma ParseNumberOfDecimal(ip: string, fp: string)
    requires |ip| > 0 && AllDigits(ip) && AllDigits(fp)
    ensures AllDigits(ip + fp)
    ensures ParseNumber(ip + "." + fp) == Some(DigitsValue(ip + fp) as real / Pow10(|fp|) as real)
  {
    ParseNumberOfDigitLed(ip + "." + fp);
    DecimalValueNoExponent(ip, fp);
    ParseUnsignedOfDecimal(ip, fp);
  }

  lemma ParseUnsignedOfDecimal(ip: string, fp: string)
    requires |ip| > 0 && AllDigits(ip) && AllDigits(fp)
    ensures ParseUnsigned(ip + "." + fp) == Some(DecimalValue(ip, fp, 0))
  {
    var s := ip + "." + fp;
    assert s == ip + ("." + fp);
    assert s[..|ip|] == ip;
    var v := s[|ip|..];
    assert v == "." + fp && v[1..] == fp;
    assert fp[..|fp|] == fp && fp[|fp|..] == "";
    assert ParseExponent("") == Some((0, ""));
    DigitSpanPrefix(ip, "." + fp);
    DigitSpanAll(fp);
  }

  lemma {:induction false} DigitSpanPrefix(a: string, b: string)
    requires AllDigits(a)
    requires |b| == 0 || !IsDigit(b[0])
    ensures DigitSpan(a + b) == |a|
    decreases |a|
  {
    if |a| > 0 {
      assert (a + b)[1..] == a[1..] + b;
      DigitSpanPrefix(a[1..], b);
    } else {
      assert a + b == b;
    }
  }

  /** The exponent and trailing blanks of an accepted number hold no decimal point. */
  lemma {:induction false} NoPointAfterFraction(x: string)
    requires ParseExponent(x).Some? && AllBlank(ParseExponent(x).value.1)
    ensures '.' !in x
  {
    if |x| > 0 && (x[0] == 'e' || x[0] == 'E') {
      var y := x[1..];
      var z := if |y| > 0 && (y[0] == '-' || y[0] == '+') then y[1..] else y;
      var d := DigitSpan(z);
      var off := |x| - |z|;
      forall k | 0 <= k < |x| ensures x[k] != '.' {
        if k >= off {
          assert x[k] == z[k - off];
          if k - off < d {
            assert z[..d][k - off] == z[k - off];
          } else {
            assert z[d..][k - off - d] == z[k - off];
          }
        }
      }
    }
  }

  /** The unsigned part of an accepted number has at most one decimal point. */
  lemma UnsignedPoints(u: string)
    requires ParseUnsigned(u).Some?
    ensures Text.Count(u, '.') <= 1
  {
    var i := DigitSpan(u);
    var v := u[i..];
    var point := |v| > 0 && v[0] == '.';
    var w := if point then v[1..] else v;
    var f := DigitSpan(w);
    NoPointAfterFraction(w[f..]);
    Text.CountSplit(u, i, '.');
    Text.CountAbsent(u[..i], '.');
    Text.CountSplit(w, f, '.');
    Text.CountAbsent(w[..f], '.');
    Text.CountAbsent(w[f..], '.');
    assert Text.Count(w, '.') == 0;
    assert Text.Count(v, '.') <= 1 + Text.Count(w, '.');
  }

  /**
   * A string that `pd.to_numeric` accepts has at most one decimal point:
   * with two or more, the cell is not a number.
   */
  lemma AtMostOnePoint(s: string)
    requires ParseNumber(s).Some?
    ensures Text.Count(s, '.') <= 1
  {
    var a := BlankSpan(s);
    var t := s[a..];
    Text.CountSplit(s, a, '.');
    Text.CountAbsent(s[..a], '.');
    if |t| > 0 && (t[0] == '-' || t[0] == '+') {
      UnsignedPoints(t[1..]);
    } else {
      UnsignedPoints(t);
    }
  }
}
