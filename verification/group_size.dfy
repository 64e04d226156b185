/**
 The group-size field: its text goes through the global parseInt (section
 19.2.5 of ECMAScript 2023, radix left undefined) and a result that is NaN
 or zero is replaced by 1 through `|| 1`.
 */
module GroupSize {
  import opened Wrappers
  import opened Text

  /** The value of an ASCII letter or digit as parseInt reads it: 0-9 for
      the digits, 10-35 for the letters of either case, 36 for anything
      else, which no radix accepts. */
  function DigitValue(c: char): (v: nat)
    ensures v <= 36
    ensures '0' <= c <= '9' ==> v == c as int - '0' as int
    ensures v < 10 ==> '0' <= c <= '9'
  {
    if '0' <= c <= '9' then c as int - '0' as int
    else if 'a' <= c <= 'z' then c as int - 'a' as int + 10
    else if 'A' <= c <= 'Z' then c as int - 'A' as int + 10
    else 36
  }

  /** The length of the longest prefix of `s` made of digits of `radix`. */
  function DigitPrefix(s: string, radix: nat): (n: nat)
    ensures n <= |s|
  {
    if |s| == 0 || DigitValue(s[0]) >= radix then 0
    else 1 + DigitPrefix(s[1..], radix)
  }

  /** DigitPrefix is the longest run: every character before it is a digit
      of the radix and the one after it, if any, is not. */
  lemma {:induction false} DigitPrefixLongest(s: string, radix: nat)
    ensures var n := DigitPrefix(s, radix);
              && (forall i :: 0 <= i < n ==> DigitValue(s[i]) < radix)
              && (n < |s| ==> DigitValue(s[n]) >= radix)
  {
    if |s| > 0 && DigitValue(s[0]) < radix {
      DigitPrefixLongest(s[1..], radix);
      var n := DigitPrefix(s, radix);
      assert forall i :: 1 <= i < n ==> s[i] == s[1..][i - 1];
    }
  }

  /** The number a digit string denotes, most significant digit first. */
  function DigitsValue(ds: string, radix: nat): nat {
    if |ds| == 0 then 0
    else DigitsValue(ds[..|ds| - 1], radix) * radix + DigitValue(ds[|ds| - 1])
  }

  /** The unsigned part of parseInt with no radix: "0x" or "0X" switches
      to radix 16, then the longest run of digits is read. No digit gives
      NaN (None). */
  function Magnitude(u: string): (r: Option<nat>)
    ensures r.Some? ==> |u| > 0 && '0' <= u[0] <= '9'
  {
    if |u| >= 2 && u[0] == '0' && (u[1] == 'x' || u[1] == 'X') then
      DigitRun(u[2..], 16)
    else
      DigitRun(u, 10)
  }

  /** The value of the longest run of digits of `radix` at the start of
      `v`, or None when there is none. */
  function DigitRun(v: string, radix: nat): (r: Option<nat>)
    ensures r.Some? ==> |v| > 0 && DigitValue(v[0]) < radix
  {
    var n := DigitPrefix(v, radix);
    if n == 0 then None else Some(DigitsValue(v[..n], radix))
  }

  /** parseInt(s) with no radix: skip leading whitespace, then read a
      signed magnitude. A number is found only when a decimal digit follows
      the whitespace and the optional sign, and it is negative only when
      that sign is a minus. */
  function ParseInt(s: string): (r: Option<int>)
    ensures var t := TrimStart(s);
            var u := if |t| > 0 && (t[0] == '-' || t[0] == '+') then t[1..] else t;
            r.Some? ==> |u| > 0 && '0' <= u[0] <= '9'
    ensures r.Some? && r.value < 0 ==> |TrimStart(s)| > 0 && TrimStart(s)[0] == '-'
  {
    ParseSigned(TrimStart(s))
  }

  /** One optional sign, then the magnitude. The value -0 is returned as 0,
      because the two are falsy alike. */
  function ParseSigned(t: string): (r: Option<int>)
    ensures var u := if |t| > 0 && (t[0] == '-' || t[0] == '+') then t[1..] else t;
            r.Some? ==> |u| > 0 && '0' <= u[0] <= '9'
    ensures r.Some? && r.value < 0 ==> |t| > 0 && t[0] == '-'
  {
    var negative := |t| > 0 && t[0] == '-';
    var u := if |t| > 0 && (t[0] == '-' || t[0] == '+') then t[1..] else t;
    match Magnitude(u)
    case None => None
    case Some(m) =>
      var v: int := if negative then -(m as int) else m;
      Some(v)
  }

  /** Text that does not start with whitespace is read from its first
      character on. */
  lemma ParseIntNoLeadingSpace(s: string)
    requires |s| > 0 && !IsWhitespace(s[0])
    ensures ParseInt(s) == ParseSigned(s)
  {
    TrimStartKeeps(s);
  }

  /** `parseInt(value) || 1`: NaN and 0 become 1, every other value is kept,
      so the stored size is never 0 but may be negative. */
  function CoerceGroupSize(value: string): (size: int)
    ensures size != 0
    ensures ParseInt(value).None? ==> size == 1
    ensures ParseInt(value) == Some(0) ==> size == 1
    ensures ParseInt(value).Some? && ParseInt(value).value != 0 ==> size == ParseInt(value).value
  {
    match ParseInt(value)
    case None => 1
    case Some(v) => if v == 0 then 1 else v
  }

  /** The stored size is a usable group size (at least 1) exactly when the
      field does not parse to a negative number. */
  lemma CoercedSizePositive(value: string)
    ensures CoerceGroupSize(value) >= 1 <==> !(ParseInt(value).Some? && ParseInt(value).value < 0)
  {
  }

  /** The decimal digits of n, with no leading zero. */
  function Digits(n: nat): (ds: string)
    ensures |ds| >= 1 && ds[0] != '-' && !IsWhitespace(ds[0])
    ensures n > 0 ==> ds[0] != '0'
    ensures forall i :: 0 <= i < |ds| ==> '0' <= ds[i] <= '9'
    decreases n
  {
    if n < 10 then [('0' as int + n) as char]
    else
      var ds := Digits(n / 10) + [('0' as int + n % 10) as char];
      assert ds[0] == Digits(n / 10)[0];
      ds
  }

  /** The text a number field holds for the integer n. */
  function Decimal(n: int): (s: string)
    ensures |s| >= 1 && !IsWhitespace(s[0])
  {
    if n < 0 then "-" + Digits(-n) else Digits(n)
  }

  /** Reading back the digits of n gives n. */
  lemma {:induction false} DigitsValueOfDigits(n: nat)
    ensures DigitsValue(Digits(n), 10) == n
    decreases n
  {
    var ds := Digits(n);
    if n >= 10 {
      DigitsValueOfDigits(n / 10);
      assert ds[..|ds| - 1] == Digits(n / 10);
    }
  }

  /** The digit run of a digit string followed by a non-digit is the
      whole digit string. */
  lemma {:induction false} DigitPrefixStops(ds: string, t: string)
    requires forall i :: 0 <= i < |ds| ==> '0' <= ds[i] <= '9'
    requires |t| == 0 || DigitValue(t[0]) >= 10
    ensures DigitPrefix(ds + t, 10) == |ds|
  {
    if |ds| == 0 {
      assert ds + t == t;
    } else {
      assert (ds + t)[0] == ds[0];
      assert (ds + t)[1..] == ds[1..] + t;
      DigitPrefixStops(ds[1..], t);
    }
  }

  /** The magnitude of a digit string followed by a non-digit is the
      number the digits denote. */
  lemma MagnitudeOfDigits(m: nat, t: string)
    requires |t| == 0 || (DigitValue(t[0]) >= 10 && t[0] != 'x' && t[0] != 'X')
    ensures Magnitude(Digits(m) + t) == Some(m)
  {
    var ds := Digits(m);
    var u := ds + t;
    assert !(|u| >= 2 && u[0] == '0' && (u[1] == 'x' || u[1] == 'X')) by {
      if |u| >= 2 && u[0] == '0' {
        assert m == 0 && |ds| == 1 && u[1] == t[0];
      }
    }
    DigitPrefixStops(ds, t);
    assert u[..|ds|] == ds;
    DigitsValueOfDigits(m);
  }

  /** A minus sign in front of a magnitude negates it. */
  lemma ParseNegative(u: string, m: nat, n: int)
    requires Magnitude(u) == Some(m) && n == -(m as int)
    ensures ParseSigned("-" + u) == Some(n)
  {
    assert ("-" + u)[1..] == u;
  }

  /** Text starting with a digit is read as a magnitude alone. */
  lemma ParseUnsigned(u: string, m: nat)
    requires |u| > 0 && '0' <= u[0] <= '9'
    requires Magnitude(u) == Some(m)
    ensures ParseSigned(u) == Some(m)
  {
  }

  /** parseInt reads back the integer a number field shows, and stops at
      what may follow it there (a fraction, an exponent). */
  lemma ParseDecimal(n: int, t: string)
    requires |t| == 0 || (DigitValue(t[0]) >= 10 && t[0] != 'x' && t[0] != 'X')
    ensures ParseInt(Decimal(n) + t) == Some(n)
  {
    if n < 0 {
      ParseNegativeDecimal(n, t);
    } else {
      ParseNaturalDecimal(n, t);
    }
  }

  lemma ParseNegativeDecimal(n: int, t: string)
    requires n < 0
    requires |t| == 0 || (DigitValue(t[0]) >= 10 && t[0] != 'x' && t[0] != 'X')
    ensures ParseInt(Decimal(n) + t) == Some(n)
  {
    assert Decimal(n) + t == "-" + Digits(-n) + t;
    ParseMinusDigits(-n, t, n);
  }

  lemma ParseNaturalDecimal(n: int, t: string)
    requires n >= 0
    requires |t| == 0 || (DigitValue(t[0]) >= 10 && t[0] != 'x' && t[0] != 'X')
    ensures ParseInt(Decimal(n) + t) == Some(n)
  {
    var s := Digits(n) + t;
    assert Decimal(n) + t == s;
    assert s[0] == Digits(n)[0];
    ParseIntNoLeadingSpace(s);
    ParseDigits(n, t);
  }

  lemma ParseMinusDigits(m: nat, t: string, n: int)
    requires n == -(m as int)
    requires |t| == 0 || (DigitValue(t[0]) >= 10 && t[0] != 'x' && t[0] != 'X')
    ensures ParseInt("-" + Digits(m) + t) == Some(n)
  {
    var s := "-" + Digits(m) + t;
    assert s[0] == '-';
    ParseIntNoLeadingSpace(s);
    assert s == "-" + (Digits(m) + t);
    MagnitudeOfDigits(m, t);
    ParseNegative(Digits(m) + t, m, n);
  }

  lemma ParseDigits(m: nat, t: string)
    requires |t| == 0 || (DigitValue(t[0]) >= 10 && t[0] != 'x' && t[0] != 'X')
    ensures ParseSigned(Digits(m) + t) == Some(m)
  {
    var s := Digits(m) + t;
    assert s[0] == Digits(m)[0];
    MagnitudeOfDigits(m, t);
    ParseUnsigned(s, m);
  }

  /** An empty field, or one holding a fraction with no integer part,
      parses to NaN and gives size 1. */
  lemma NoDigitsGiveOne()
    ensures CoerceGroupSize("") == 1
    ensures CoerceGroupSize(".5") == 1
  {
    TrimStartKeeps(".5");
    assert ParseSigned(".5") == None;
  }

  /** "0" parses to zero, which is falsy, and gives size 1. */
  lemma ZeroGivesOne()
    ensures CoerceGroupSize("0") == 1
  {
    assert Digits(0) == "0";
    assert "0" == Decimal(0) + "";
    ParseDecimal(0, "");
  }

  /** "-0" parses to negative zero, which is falsy too, and gives size 1. */
  lemma MinusZeroGivesOne()
    ensures CoerceGroupSize("-0") == 1
  {
    assert Digits(0) == "0";
    assert "-0" == "-" + Digits(0) + "";
    ParseMinusDigits(0, "", 0);
  }

  /** A fraction is cut at the point. */
  lemma FractionCut()
    ensures CoerceGroupSize("2.5") == 2
  {
    assert Digits(2) == "2";
    assert "2.5" == Decimal(2) + ".5";
    ParseDecimal(2, ".5");
  }

  /** An exponent is not read. */
  lemma ExponentIgnored()
    ensures CoerceGroupSize("1e3") == 1
  {
    assert Digits(1) == "1";
    assert "1e3" == Decimal(1) + "e3";
    ParseDecimal(1, "e3");
  }

  /** A negative number passes `|| 1` unchanged. */
  lemma NegativeSizeKept()
    ensures CoerceGroupSize("-2") == -2
  {
    assert Digits(2) == "2";
    assert "-2" == Decimal(-2) + "";
    ParseDecimal(-2, "");
  }

  /** The size the field is evidently meant to give (its `min` is 1): as
      `|| 1`, but a negative value is also replaced by 1. */
  function ClampedGroupSize(value: string): (size: int)
    ensures size >= 1
    ensures CoerceGroupSize(value) >= 1 ==> size == CoerceGroupSize(value)
    ensures CoerceGroupSize(value) < 1 ==> size == 1
  {
    var v := CoerceGroupSize(value);
    if v < 1 then 1 else v
  }
}
