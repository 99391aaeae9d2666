/** Python's `float(text)` on the strings a price cell can hold (main.py:49),
    over exact reals: surrounding whitespace is ignored, then an optional sign,
    decimal digits and at most one decimal point, with at least one digit. */
module Price {
  import opened Wrappers

  /** The whitespace `float` skips around ASCII text: space, tab, line feed,
      vertical tab, form feed and carriage return (C's `isspace`). The
      separators U+001C-U+001F, which `str.isspace()` also accepts, are not
      skipped. */
  predicate IsSpace(c: char)
  {
    c == ' ' || 9 <= c as int <= 13
  }

  predicate IsDigit(c: char)
  {
    '0' <= c <= '9'
  }

  predicate AllDigits(s: string)
  {
    forall i :: 0 <= i < |s| ==> IsDigit(s[i])
  }

  function DigitValue(c: char): nat
    requires IsDigit(c)
  {
    c as int - '0' as int
  }

  function DigitChar(d: nat): (c: char)
    requires d < 10
    ensures IsDigit(c) && DigitValue(c) == d
  {
    ('0' as int + d) as char
  }

  /** The value of a run of decimal digits read as an integer. */
  function IntValue(ds: string): nat
    requires AllDigits(ds)
  {
    if ds == [] then 0 else IntValue(ds[..|ds| - 1]) * 10 + DigitValue(ds[|ds| - 1])
  }

  /** The value of a run of decimal digits read after a decimal point. */
  function FracValue(ds: string): real
    requires AllDigits(ds)
  {
    if ds == [] then 0.0 else (DigitValue(ds[0]) as real + FracValue(ds[1..])) / 10.0
  }

  /** `s` with its leading whitespace removed. */
  function StripStart(s: string): (r: string)
    ensures |r| <= |s| && r == s[|s| - |r|..]
    ensures forall i :: 0 <= i < |s| - |r| ==> IsSpace(s[i])
    ensures r == [] || !IsSpace(r[0])
  {
    if s != [] && IsSpace(s[0]) then StripStart(s[1..]) else s
  }

  /** `s` with its trailing whitespace removed. */
  function StripEnd(s: string): (r: string)
    ensures |r| <= |s| && r == s[..|r|]
    ensures forall i :: |r| <= i < |s| ==> IsSpace(s[i])
    ensures r == [] || !IsSpace(r[|r| - 1])
  {
    if s != [] && IsSpace(s[|s| - 1]) then StripEnd(s[..|s| - 1]) else s
  }

  /** `s` without its surrounding whitespace: the text `float` reads. */
  function Strip(s: string): string
  {
    StripEnd(StripStart(s))
  }

  /** Digits with at most one decimal point and at least one digit: "25", "25.50", ".5", "5.". */
  ghost predicate UnsignedLiteral(t: string)
  {
    (|t| > 0 && AllDigits(t)) ||
    (|t| >= 2 && exists d :: 0 <= d < |t| && t[d] == '.' && AllDigits(t[..d]) && AllDigits(t[d + 1..]))
  }

  /** An unsigned literal, optionally preceded by one sign character. */
  ghost predicate DecimalLiteral(t: string)
  {
    UnsignedLiteral(t) || (|t| > 0 && (t[0] == '+' || t[0] == '-') && UnsignedLiteral(t[1..]))
  }

  /** The position of the first decimal point, if any. */
  function FindPoint(t: string): (r: Option<nat>)
    ensures r.None? ==> forall i :: 0 <= i < |t| ==> t[i] != '.'
    ensures r.Some? ==> r.value < |t| && t[r.value] == '.' && forall i :: 0 <= i < r.value ==> t[i] != '.'
  {
    if t == [] then None
    else if t[0] == '.' then Some(0)
    else match FindPoint(t[1..])
      case None => None
      case Some(d) => Some(d + 1)
  }

  /** Reads an unsigned literal; `None` where `float` would raise `ValueError`. */
  function ParseUnsigned(t: string): Option<real>
  {
    match FindPoint(t)
    case None =>
      if |t| > 0 && AllDigits(t) then Some(IntValue(t) as real) else None
    case Some(d) =>
      if |t| >= 2 && AllDigits(t[..d]) && AllDigits(t[d + 1..])
      then Some(IntValue(t[..d]) as real + FracValue(t[d + 1..]))
      else None
  }

  /** Reads an optionally signed literal. */
  function ParseSigned(t: string): Option<real>
  {
    if |t| > 0 && (t[0] == '+' || t[0] == '-') then
      match ParseUnsigned(t[1..])
      case None => None
      case Some(v) => Some(if t[0] == '-' then -v else v)
    else
      ParseUnsigned(t)
  }

  /** `float(s)` for a string `s`; `None` stands for the `ValueError` the
      caller catches. */
  function ParseFloat(s: string): Option<real>
  {
    ParseSigned(Strip(s))
  }

  /** `float` accepts a string exactly when, stripped of surrounding white
      space, it is a decimal literal. */
  lemma ParseFloatAccepts(s: string)
    ensures ParseFloat(s).Some? <==> DecimalLiteral(Strip(s))
  {
    SignedIffLiteral(Strip(s));
  }

  lemma SignedIffLiteral(t: string)
    ensures ParseSigned(t).Some? <==> DecimalLiteral(t)
  {
    UnsignedIffLiteral(t);
    if |t| > 0 {
      UnsignedIffLiteral(t[1..]);
    }
  }

  /** The reader accepts exactly the unsigned literals. */
  lemma UnsignedIffLiteral(t: string)
    ensures ParseUnsigned(t).Some? <==> UnsignedLiteral(t)
  {
    match FindPoint(t)
    case None =>
    case Some(d) =>
      if UnsignedLiteral(t) && !(|t| > 0 && AllDigits(t)) {
        var e :| 0 <= e < |t| && t[e] == '.' && AllDigits(t[..e]) && AllDigits(t[e + 1..]);
        assert e == d;
      }
  }

  /** Decimal notation of a natural number, most significant digit first. */
  function ShowNat(n: nat): (s: string)
  {
    if n < 10 then [DigitChar(n)] else ShowNat(n / 10) + [DigitChar(n % 10)]
  }

  lemma {:induction false} ShowNatReads(n: nat)
    ensures |ShowNat(n)| > 0 && AllDigits(ShowNat(n)) && IntValue(ShowNat(n)) == n
  {
    if n >= 10 {
      ShowNatReads(n / 10);
      var s := ShowNat(n);
      assert s[..|s| - 1] == ShowNat(n / 10);
    }
  }

  /** Decimal notation of an integer, with a leading '-' when negative. */
  function ShowInt(n: int): string
  {
    if n < 0 then "-" + ShowNat(-n) else ShowNat(n)
  }

  lemma StripKeepsTrimmed(s: string)
    requires |s| > 0 && !IsSpace(s[0]) && !IsSpace(s[|s| - 1])
    ensures Strip(s) == s
  {
  }

  /** Reading back the decimal notation of any integer gives that integer. */
  lemma ParseShowInt(n: int)
    ensures ParseFloat(ShowInt(n)) == Some(n as real)
  {
    var m: nat := if n < 0 then -n else n;
    ShowNatReads(m);
    var digits := ShowNat(m);
    StripKeepsTrimmed(ShowInt(n));
    assert FindPoint(digits).None?;
    if n < 0 {
      assert ShowInt(n)[1..] == digits;
    }
  }

  /** A price written with two decimals, such as "25.50" for 2550 hundredths. */
  function ShowCents(c: nat): string
  {
    ShowNat(c / 100) + "." + [DigitChar(c % 100 / 10), DigitChar(c % 100 % 10)]
  }

  /** A literal with a decimal point reads as its whole part plus its fraction. */
  lemma ParseUnsignedPoint(whole: string, frac: string)
    requires AllDigits(whole) && AllDigits(frac) && |whole| + |frac| > 0
    ensures ParseUnsigned(whole + "." + frac) == Some(IntValue(whole) as real + FracValue(frac))
  {
    SplitAtPoint(whole, frac);
    ParseUnsignedAtPoint(whole + "." + frac, whole, frac);
  }

  /** "whole.frac" has its first point right after `whole`. */
  lemma SplitAtPoint(whole: string, frac: string)
    requires AllDigits(whole)
    ensures FindPoint(whole + "." + frac) == Some(|whole|)
    ensures (whole + "." + frac)[..|whole|] == whole && (whole + "." + frac)[|whole| + 1..] == frac
  {
    var t := whole + "." + frac;
    assert t == whole + ("." + frac);
    FindPointAfterDigits(whole, "." + frac);
  }

  /** The reader on a text split at its first point into digits before and after. */
  lemma ParseUnsignedAtPoint(t: string, whole: string, frac: string)
    requires AllDigits(whole) && AllDigits(frac) && |t| >= 2
    requires FindPoint(t) == Some(|whole|) && t[..|whole|] == whole && t[|whole| + 1..] == frac
    ensures ParseUnsigned(t) == Some(IntValue(whole) as real + FracValue(frac))
  {
  }

  lemma {:induction false} FindPointAfterDigits(digits: string, rest: string)
    requires AllDigits(digits) && |rest| > 0 && rest[0] == '.'
    ensures FindPoint(digits + rest) == Some(|digits|)
  {
    if digits != [] {
      assert (digits + rest)[1..] == digits[1..] + rest;
      FindPointAfterDigits(digits[1..], rest);
    } else {
      assert digits + rest == rest;
    }
  }

  lemma FracTwoDigits(x: nat, y: nat)
    requires x < 10 && y < 10
    ensures FracValue([DigitChar(x), DigitChar(y)]) == (10 * x + y) as real / 100.0
  {
    var frac := [DigitChar(x), DigitChar(y)];
    assert frac[1..] == [DigitChar(y)] && frac[1..][1..] == [];
    assert FracValue(frac[1..]) == y as real / 10.0;
  }

  /** Reading back a two-decimal price gives the exact amount. */
  lemma ParseShowCents(c: nat)
    ensures ParseFloat(ShowCents(c)) == Some(c as real / 100.0)
  {
    var whole := ShowNat(c / 100);
    ShowNatReads(c / 100);
    var frac := [DigitChar(c % 100 / 10), DigitChar(c % 100 % 10)];
    var s := ShowCents(c);
    assert s == whole + "." + frac;
    StripKeepsTrimmed(s);
    assert IsDigit(s[0]);
    ParseUnsignedPoint(whole, frac);
    FracTwoDigits(c % 100 / 10, c % 100 % 10);
    CentsSplit(c);
  }

  lemma CentsSplit(c: nat)
    ensures c as real / 100.0 == (c / 100) as real + (10 * (c % 100 / 10) + c % 100 % 10) as real / 100.0
  {
    var q, r := c / 100, c % 100;
    assert c == 100 * q + r;
    assert r == 10 * (r / 10) + r % 10;
    assert c as real == 100.0 * q as real + r as real;
  }

  /** Text whose first character is none of whitespace, a digit, a sign or a
      point is no number: the coercion reports failure instead of raising. */
  lemma LeadingJunkFails(s: string)
    requires |s| > 0 && !IsSpace(s[0]) && !IsDigit(s[0])
    requires s[0] != '.' && s[0] != '+' && s[0] != '-'
    ensures ParseFloat(s) == None
  {
    var t := Strip(s);
    assert StripStart(s) == s;
    assert |t| > 0 && t[0] == s[0];
    assert !AllDigits(t);
    assert !UnsignedLiteral(t);
  }

  /** "N/A" in a price cell. */
  lemma NotANumber()
    ensures ParseFloat("N/A") == None
  {
    LeadingJunkFails("N/A");
  }

  /** An information separator is not whitespace to `float`: "\x1c5" raises
      `ValueError`, so the price is `None`. */
  lemma SeparatorIsNoSpace()
    ensures ParseFloat([28 as char, '5']) == None
  {
    LeadingJunkFails([28 as char, '5']);
  }
}
