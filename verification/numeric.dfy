/** Numeric coercion of a text cell (processData.py:66-72): drop every '$'
    and ',' and parse what is left as a decimal number. */
module Numeric {
  import opened Wrappers
  import opened Cells

  /** The text with every currency sign and thousands separator removed. */
  function StripCurrency(s: string): (r: string)
    ensures |r| <= |s|
    ensures forall k :: 0 <= k < |r| ==> r[k] != '$' && r[k] != ','

  {
    if |s| == 0 then ""
    else if s[0] == '$' || s[0] == ',' then StripCurrency(s[1..])
    else [s[0]] + StripCurrency(s[1..])
  }

  lemma {:induction false} StripCurrencyAppend(a: string, b: string)
    ensures StripCurrency(a + b) == StripCurrency(a) + StripCurrency(b)
    decreases |a|
  {
    if |a| == 0 {
      assert a + b == b;
    } else {
      assert (a + b)[1..] == a[1..] + b;
      StripCurrencyAppend(a[1..], b);
    }
  }

  /** Text without '$' and ',' passes through unchanged. */
  lemma {:induction false} StripCurrencyKeepsClean(s: string)
    requires forall k :: 0 <= k < |s| ==> s[k] != '$' && s[k] != ','
    ensures StripCurrency(s) == s
    decreases |s|
  {
    if |s| > 0 {
      StripCurrencyKeepsClean(s[1..]);
    }
  }

  predicate IsDigit(ch: char) {
    '0' <= ch <= '9'
  }

  predicate AllDigits(s: string) {
    forall k :: 0 <= k < |s| ==> IsDigit(s[k])
  }

  /** The value of a string of decimal digits, most significant first. */
  function DigitsValue(s: string): nat
    requires AllDigits(s)
  {
    if |s| == 0 then 0
    else DigitsValue(s[..|s| - 1]) * 10 + (s[|s| - 1] as int - '0' as int)
  }

  function Pow10(n: nat): (r: nat)
    ensures r >= 1
  {
    if n == 0 then 1 else 10 * Pow10(n - 1)
  }

  /** A fraction's digits scaled into [0, 1): "50" is 0.5. */
  function FractionValue(frac: string): real
    requires AllDigits(frac)
  {
    DigitsValue(frac) as real / Pow10(|frac|) as real
  }

  /** The index of the first '.' in `s`, or |s| when there is none. */
  function DotIndex(s: string): (k: nat)
    ensures k <= |s|
    ensures forall j :: 0 <= j < k ==> s[j] != '.'
    ensures k < |s| ==> s[k] == '.'
  {
    if |s| == 0 then 0
    else if s[0] == '.' then 0
    else 1 + DotIndex(s[1..])
  }

  /** An unsigned decimal `digits[.digits]` with at least one digit. */
  function ParseUnsigned(s: string): Option<real>
  {
    var k := DotIndex(s);
    var whole := s[..k];
    var frac := if k < |s| then s[k + 1..] else "";
    if AllDigits(whole) && AllDigits(frac) && |whole| + |frac| > 0 then
      Some(DigitsValue(whole) as real + FractionValue(frac))
    else None
  }

  /** A decimal number with an optional leading sign, as pandas' numeric conversion
      reads the plain decimal forms. */
  function ParseNumber(s: string): Option<real>
  {
    if |s| > 0 && s[0] == '-' then
      match ParseUnsigned(s[1..])
      case Some(v) => Some(-v)
      case None => None
    else if |s| > 0 && s[0] == '+' then ParseUnsigned(s[1..])
    else ParseUnsigned(s)
  }

  /** Coercion of one text cell: empty text is missing, a number is a
      number, anything else aborts. */
  function CoerceText(s: string): (r: Result<Cell, Error>)
    ensures r.Success? ==> r.value.Null? || r.value.Num?
    ensures r.Success? && r.value.Null? <==> StripCurrency(s) == ""
    ensures r.Failure? ==> r.error == Unparseable
    ensures r.Failure? <==> StripCurrency(s) != "" && ParseNumber(StripCurrency(s)).None?
    ensures r.Success? && r.value.Num? ==> ParseNumber(StripCurrency(s)) == Some(r.value.v)
  {
    var t := StripCurrency(s);
    if t == "" then Success(Null)
    else match ParseNumber(t)
      case Some(v) => Success(Num(v))
      case None => Failure(Unparseable)
  }

  /** Decimal digits of a natural number, no leading zeros (except "0"). */
  function NatDigits(n: nat): (s: string)
    ensures AllDigits(s) && |s| >= 1
    ensures forall k :: 0 <= k < |s| ==> s[k] != '.' && s[k] != '$' && s[k] != ','
  {
    if n < 10 then [('0' as int + n) as char]
    else NatDigits(n / 10) + [('0' as int + n % 10) as char]
  }

  lemma {:induction false} NatDigitsValue(n: nat)
    ensures DigitsValue(NatDigits(n)) == n
  {
    if n >= 10 {
      NatDigitsValue(n / 10);
      var s := NatDigits(n);
      assert s[..|s| - 1] == NatDigits(n / 10);
    }
  }

  /** Digits grouped by ',' every three places from the right: "1234567" -> "1,234,567". */
  function GroupThousands(d: string): (r: string)
    decreases |d|
  {
    if |d| <= 3 then d
    else GroupThousands(d[..|d| - 3]) + "," + d[|d| - 3..]
  }

  lemma {:induction false} StripGroupThousands(d: string)
    requires forall k :: 0 <= k < |d| ==> d[k] != '$' && d[k] != ','
    ensures StripCurrency(GroupThousands(d)) == d
    decreases |d|
  {
    if |d| <= 3 {
      StripCurrencyKeepsClean(d);
    } else {
      var hi, lo := d[..|d| - 3], d[|d| - 3..];
      CleanSplit(d, |d| - 3);
      StripGroupThousands(hi);
      StripCurrencyKeepsClean(lo);
      StripJoinedGroup(GroupThousands(hi), hi, lo);
      assert hi + lo == d;
    }
  }

  /** Both pieces of text without separators have none either. */
  lemma CleanSplit(d: string, m: nat)
    requires m <= |d|
    requires forall k :: 0 <= k < |d| ==> d[k] != '$' && d[k] != ','
    ensures forall k :: 0 <= k < m ==> d[..m][k] != '$' && d[..m][k] != ','
    ensures forall k :: 0 <= k < |d| - m ==> d[m..][k] != '$' && d[m..][k] != ','
  {
  }

  /** A thousands comma between two pieces disappears when stripping. */
  lemma StripJoinedGroup(g: string, hi: string, lo: string)
    requires StripCurrency(g) == hi && StripCurrency(lo) == lo
    ensures StripCurrency(g + "," + lo) == hi + lo
  {
    StripCurrencyAppend(g + ",", lo);
    StripCurrencyAppend(g, ",");
    StripSeparator(',');
  }

  /** How the Gray Book prints a whole-dollar amount: "$1,234,567". */
  function FormatDollars(n: nat): string
  {
    "$" + GroupThousands(NatDigits(n))
  }

  lemma StripFormatDollars(n: nat)
    ensures StripCurrency(FormatDollars(n)) == NatDigits(n)
  {
    var d := NatDigits(n);
    StripCurrencyAppend("$", GroupThousands(d));
    assert StripCurrency("$") == "" by {
      assert "$"[1..] == "";
    }
    StripGroupThousands(d);
  }

  lemma DotIndexOfDigits(d: string)
    requires AllDigits(d)
    ensures DotIndex(d) == |d|
  {
  }

  lemma ParseUnsignedWithoutDot(d: string)
    requires AllDigits(d) && |d| >= 1 && DotIndex(d) == |d|
    ensures ParseUnsigned(d) == Some(DigitsValue(d) as real + FractionValue(""))
  {
    assert d[..|d|] == d;
  }

  lemma FractionValueEmpty()
    ensures FractionValue("") == 0.0
  {
  }

  /** A plain digit string parses to its value. */
  lemma ParseDigits(d: string)
    requires AllDigits(d) && |d| >= 1
    ensures ParseNumber(d) == Some(DigitsValue(d) as real)
  {
    assert IsDigit(d[0]);
    DotIndexOfDigits(d);
    ParseUnsignedWithoutDot(d);
    FractionValueEmpty();
  }

  /** Coercion reads back every amount the Gray Book prints. */
  lemma FormatDollarsRoundTrip(n: nat)
    ensures CoerceText(FormatDollars(n)) == Success(Num(n as real))
  {
    StripFormatDollars(n);
    ParseDigits(NatDigits(n));
    NatDigitsValue(n);
  }

  lemma StripCentsExample()
    ensures StripCurrency("$1,234.50") == "1234.50"
  {
    StripAfterSeparator('$', "1");
    StripAfterSeparator(',', "234.50");
    StripCurrencyAppend("$1", ",234.50");
  }

  /** A separator in front of clean text is dropped. */
  lemma StripAfterSeparator(c: char, t: string)
    requires c == '$' || c == ','
    requires forall k :: 0 <= k < |t| ==> t[k] != '$' && t[k] != ','
    ensures StripCurrency([c] + t) == t
  {
    assert ([c] + t)[1..] == t;
    StripCurrencyKeepsClean(t);
  }

  lemma ParseCentsExample()
    ensures ParseNumber("1234.50") == Some(1234.5)
  {
    var t := "1234.50";
    assert DotIndex(t) == 4 by {
      assert t[1..] == "234.50";
      assert t[1..][1..] == "34.50";
      assert t[1..][1..][1..] == "4.50";
      assert t[1..][1..][1..][1..] == ".50";
    }
    assert t[..4] == "1234";
    assert t[5..] == "50";
    assert DigitsValue("1234") == 1234 by {
      assert "1234"[..3] == "123";
      assert "123"[..2] == "12";
      assert "12"[..1] == "1";
      assert "1"[..0] == "";
    }
    assert DigitsValue("50") == 50 by {
      assert "50"[..1] == "5";
      assert "5"[..0] == "";
    }
  }

  /** A cents amount: "$1,234.50" is 1234.5. */
  lemma CoerceCentsExample()
    ensures CoerceText("$1,234.50") == Success(Num(1234.5))
  {
    StripCentsExample();
    ParseCentsExample();
  }

  // ---------------------------------------------------------------------
  // What coercion does, stated without its definition
  // ---------------------------------------------------------------------

  lemma StripSeparator(c: char)
    requires c == '$' || c == ','
    ensures StripCurrency([c]) == ""
  {
    assert [c][1..] == "";
  }

  /** A '$' or ',' anywhere in the text does not change what it coerces to. */
  lemma CoerceIgnoresCurrency(a: string, c: char, b: string)
    requires c == '$' || c == ','
    ensures CoerceText(a + [c] + b) == CoerceText(a + b)
  {
    StripCurrencyAppend(a + [c], b);
    StripCurrencyAppend(a, [c]);
    StripCurrencyAppend(a, b);
    StripSeparator(c);
    assert StripCurrency(a + [c]) == StripCurrency(a) + "" == StripCurrency(a);
  }

  /** The digit a character stands for. */
  function DigitOf(c: char): nat
    requires IsDigit(c)
  {
    c as int - '0' as int
  }

  lemma {:induction false} DotIndexAfterDigits(d: string, rest: string)
    requires AllDigits(d)
    ensures DotIndex(d + rest) == |d| + DotIndex(rest)
    decreases |d|
  {
    if |d| > 0 {
      assert (d + rest)[0] == d[0];
      assert (d + rest)[1..] == d[1..] + rest;
      DotIndexAfterDigits(d[1..], rest);
    } else {
      assert d + rest == rest;
    }
  }

  /** Two digits of cents as a fraction of a dollar: "50" is 0.5. */
  function Cents(c1: char, c2: char): real
    requires IsDigit(c1) && IsDigit(c2)
  {
    (10 * DigitOf(c1) + DigitOf(c2)) as real / 100.0
  }

  lemma TwoDigitsValue(c1: char, c2: char)
    requires IsDigit(c1) && IsDigit(c2)
    ensures AllDigits([c1, c2])
    ensures FractionValue([c1, c2]) == Cents(c1, c2)
  {
    assert [c1, c2][..1] == [c1];
    assert [c1][..0] == "";
    assert DigitsValue([c1]) == DigitOf(c1);
    assert DigitsValue([c1, c2]) == 10 * DigitOf(c1) + DigitOf(c2);
    assert Pow10(2) == 100 by {
      assert Pow10(1) == 10;
    }
  }

  lemma CentsLayout(d: string, c1: char, c2: char)
    requires AllDigits(d)
    ensures var u := d + "." + [c1, c2];
      DotIndex(u) == |d| < |u| && u[..|d|] == d && u[|d| + 1..] == [c1, c2]
  {
    var cents := [c1, c2];
    var u := d + "." + cents;
    assert u == d + ("." + cents);
    DotIndexAfterDigits(d, "." + cents);
    assert DotIndex("." + cents) == 0;
  }

  /** `digits.cc` parses to the digits' value plus the cents. */
  lemma ParseWithCents(d: string, c1: char, c2: char)
    requires AllDigits(d) && |d| >= 1 && IsDigit(c1) && IsDigit(c2)
    ensures ParseUnsigned(d + "." + [c1, c2]) == Some(DigitsValue(d) as real + Cents(c1, c2))
  {
    CentsLayout(d, c1, c2);
    TwoDigitsValue(c1, c2);
    ParseUnsignedSplit(d + "." + [c1, c2], d, [c1, c2]);
  }

  lemma ParseUnsignedSplit(u: string, whole: string, frac: string)
    requires AllDigits(whole) && AllDigits(frac) && |whole| >= 1
    requires DotIndex(u) == |whole| < |u| && u[..|whole|] == whole && u[|whole| + 1..] == frac
    ensures ParseUnsigned(u) == Some(DigitsValue(whole) as real + FractionValue(frac))
  {
    var k := DotIndex(u);
    var f := if k < |u| then u[k + 1..] else "";
    assert f == frac;
    assert u[..k] == whole;
  }

  /** Stripping a printed amount with a sign and cents leaves sign, digits and cents. */
  lemma StripAmount(sign: string, n: nat, c1: char, c2: char)
    requires sign == "" || sign == "-"
    requires IsDigit(c1) && IsDigit(c2)
    ensures StripCurrency(sign + FormatDollars(n) + "." + [c1, c2]) == sign + NatDigits(n) + "." + [c1, c2]
  {
    var cents := "." + [c1, c2];
    assert sign + FormatDollars(n) + "." + [c1, c2] == sign + FormatDollars(n) + cents;
    assert sign + NatDigits(n) + "." + [c1, c2] == sign + NatDigits(n) + cents;
    StripCurrencyAppend(sign + FormatDollars(n), cents);
    StripCurrencyAppend(sign, FormatDollars(n));
    StripCurrencyKeepsClean(sign);
    StripCurrencyKeepsClean(cents);
    StripFormatDollars(n);
  }

  /** Coercion reads back every amount the Gray Book can print: an optional
      minus sign, `$`, comma-grouped dollars and two digits of cents. */
  lemma CoerceAmountRoundTrip(negative: bool, n: nat, c1: char, c2: char)
    requires IsDigit(c1) && IsDigit(c2)
    ensures var sign := if negative then "-" else "";
      var amount := n as real + Cents(c1, c2);
      CoerceText(sign + FormatDollars(n) + "." + [c1, c2]) == Success(Num(if negative then -amount else amount))
  {
    var sign := if negative then "-" else "";
    var amount := n as real + Cents(c1, c2);
    var printed := sign + FormatDollars(n) + "." + [c1, c2];
    var stripped := sign + NatDigits(n) + "." + [c1, c2];
    StripAmount(sign, n, c1, c2);
    AmountParses(negative, n, c1, c2);
    CoerceStripped(printed, stripped, if negative then -amount else amount);
  }

  /** The stripped amount reads as the signed number it shows. */
  lemma AmountParses(negative: bool, n: nat, c1: char, c2: char)
    requires IsDigit(c1) && IsDigit(c2)
    ensures var sign := if negative then "-" else "";
      var amount := n as real + Cents(c1, c2);
      ParseNumber(sign + NatDigits(n) + "." + [c1, c2]) == Some(if negative then -amount else amount)
  {
    var sign := if negative then "-" else "";
    var d := NatDigits(n);
    var u := d + "." + [c1, c2];
    NatDigitsValue(n);
    ParseWithCents(d, c1, c2);
    assert u[0] == d[0];
    ParseSigned(negative, u);
    SignedConcat(sign, d, c1, c2);
  }

  lemma SignedConcat(sign: string, d: string, c1: char, c2: char)
    ensures sign + d + "." + [c1, c2] == sign + (d + "." + [c1, c2])
  {
  }

  /** Text whose stripped form is a number coerces to that number. */
  lemma CoerceStripped(s: string, t: string, v: real)
    requires StripCurrency(s) == t && ParseNumber(t) == Some(v)
    ensures CoerceText(s) == Success(Num(v))
  {
  }

  /** A number with an optional minus sign in front of unsigned text that starts with a digit. */
  lemma ParseSigned(negative: bool, u: string)
    requires |u| > 0 && IsDigit(u[0]) && ParseUnsigned(u).Some?
    ensures ParseNumber((if negative then "-" else "") + u)
      == Some(if negative then -ParseUnsigned(u).value else ParseUnsigned(u).value)
  {
    if negative {
      ParseNegative(u);
    } else {
      assert "" + u == u;
      ParseUnsignedDirect(u);
    }
  }

  /** A leading minus sign negates the unsigned number behind it. */
  lemma ParseNegative(u: string)
    ensures ParseNumber("-" + u) == if ParseUnsigned(u).Some? then Some(-ParseUnsigned(u).value) else None
  {
    assert ("-" + u)[1..] == u;
  }

  /** Text that starts with a digit is read as an unsigned number. */
  lemma ParseUnsignedDirect(u: string)
    requires |u| > 0 && IsDigit(u[0])
    ensures ParseNumber(u) == ParseUnsigned(u)
  {
  }

  /** The characters a number can be written with, once '$' and ',' are gone. */
  predicate NumberChar(c: char) {
    IsDigit(c) || c == '.' || c == '+' || c == '-'
  }

  lemma ParseUnsignedChars(u: string, j: nat)
    requires ParseUnsigned(u).Some? && j < |u|
    ensures IsDigit(u[j]) || u[j] == '.'
  {
    var k := DotIndex(u);
    if j < k {
      assert u[j] == u[..k][j];
    } else if j > k {
      assert u[j] == u[k + 1..][j - k - 1];
    }
  }

  /** A character of the stripped text that is not '$' or ',' survives stripping. */
  lemma {:induction false} StripKeeps(s: string, k: nat)
    requires k < |s| && s[k] != '$' && s[k] != ','
    ensures exists p :: 0 <= p < |StripCurrency(s)| && StripCurrency(s)[p] == s[k]
    decreases k
  {
    if k == 0 {
      assert StripCurrency(s)[0] == s[0];
    } else {
      StripKeeps(s[1..], k - 1);
      var p :| 0 <= p < |StripCurrency(s[1..])| && StripCurrency(s[1..])[p] == s[1..][k - 1];
      if s[0] == '$' || s[0] == ',' {
        assert StripCurrency(s)[p] == s[k];
      } else {
        assert StripCurrency(s)[p + 1] == s[k];
      }
    }
  }

  /** Text holding any character that cannot be part of an amount aborts. */
  lemma CoerceRejectsForeign(s: string, k: nat)
    requires k < |s| && !NumberChar(s[k]) && s[k] != '$' && s[k] != ','
    ensures CoerceText(s) == Failure(Unparseable)
  {
    StripKeeps(s, k);
    var t := StripCurrency(s);
    var p :| 0 <= p < |t| && t[p] == s[k];
    if |t| > 0 && (t[0] == '-' || t[0] == '+') {
      assert p > 0;
      if ParseUnsigned(t[1..]).Some? {
        ParseUnsignedChars(t[1..], p - 1);
      }
    } else if ParseUnsigned(t).Some? {
      ParseUnsignedChars(t, p);
    }
  }
}
