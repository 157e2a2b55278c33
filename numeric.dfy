/**
 * What `pandas.to_numeric(..., errors="coerce")` makes of one text cell: the
 * decimal numeral it denotes, or nothing (NaN) when the text is not a numeral.
 * A numeral is optional ASCII white space, an optional sign, digits with an
 * optional fractional part, an optional exponent, optional ASCII white space.
 */
module Numeric {
  import opened Optional
  import opened PyStr

  /** The white space the numeric parser skips around a numeral (C `isspace`). */
  predicate IsAsciiSpace(c: char) { c == ' ' || ('\t' <= c <= '\r') }
  predicate IsDigit(c: char) { '0' <= c <= '9' }
  predicate IsSign(c: char) { c == '+' || c == '-' }
  predicate IsExponentMark(c: char) { c == 'e' || c == 'E' }

  /** The characters that may stand between the white space of a numeral. */
  predicate IsNumeralBodyChar(c: char) { IsDigit(c) || IsSign(c) || c == '.' || c == 'e' || c == 'E' }

  predicate AllDigits(s: string) {
    forall i :: 0 <= i < |s| ==> IsDigit(s[i])
  }

  /** The value of a digit string, most significant digit first; the empty string is 0. */
  function DigitsValue(s: string): nat
    requires AllDigits(s)
  {
    if s == [] then 0 else DigitsValue(s[..|s| - 1]) * 10 + (s[|s| - 1] as int - '0' as int)
  }

  /** Ten to the power `n`. */
  function Pow10(n: nat): int
  {
    if n == 0 then 1 else 10 * Pow10(n - 1)
  }

  /** `x` times ten to the power `e`. */
  function ScaleBy(x: real, e: int): (r: real)
    ensures e == 0 ==> r == x
    decreases if e < 0 then -e else e
  {
    if e == 0 then x
    else if e > 0 then 10.0 * ScaleBy(x, e - 1)
    else ScaleBy(x, e + 1) / 10.0
  }

  /**
   * The position of the first character of `s` in `marks`, or `|s|` when there is none.
   * This is `LeadingCount` of the characters outside `marks` (`FindIsLeadingCount`),
   * written without a function argument so that the parser's terms stay first-order.
   */
  function Find(s: string, marks: set<char>): (n: nat)
    ensures n <= |s|
    ensures forall k :: 0 <= k < n ==> s[k] !in marks
    ensures n < |s| ==> s[n] in marks
  {
    if |s| == 0 || s[0] in marks then 0 else 1 + Find(s[1..], marks)
  }

  /** Digits with an optional fractional part: `12`, `12.5`, `.5` and `12.`, but not `.` alone. */
  function ParseMantissa(m: string): Option<real>
  {
    var k := Find(m, {'.'});
    if k == |m| then
      if |m| > 0 && AllDigits(m) then Some(DigitsValue(m) as real) else None
    else
      var whole, frac := m[..k], m[k + 1..];
      if AllDigits(whole) && AllDigits(frac) && |whole| + |frac| > 0 then
        Some(DigitsValue(whole) as real + ScaleBy(DigitsValue(frac) as real, -|frac|))
      else
        None
  }

  /** An exponent: an optional sign followed by at least one digit. */
  function ParseExponent(e: string): Option<int>
  {
    if |e| > 0 && IsSign(e[0]) then
      var d := e[1..];
      if |d| > 0 && AllDigits(d) then
        var n: int := DigitsValue(d);
        Some(if e[0] == '-' then -n else n)
      else None
    else if |e| > 0 && AllDigits(e) then
      Some(DigitsValue(e))
    else
      None
  }

  /** A mantissa, optionally followed by `e` or `E` and an exponent. */
  function ParseUnsigned(u: string): Option<real>
  {
    var k := Find(u, {'e', 'E'});
    var mantissa := ParseMantissa(u[..k]);
    if k == |u| then mantissa
    else
      match (mantissa, ParseExponent(u[k + 1..]))
      case (Some(m), Some(e)) => Some(ScaleBy(m, e))
      case _ => None
  }

  /** The number a text cell denotes, or None where pandas would produce NaN. */
  function ParseNumber(s: string): Option<real>
  {
    var t := Strip(s, IsAsciiSpace);
    var signed := |t| > 0 && IsSign(t[0]);
    match ParseUnsigned(if signed then t[1..] else t)
    case Some(v) => Some(if signed && t[0] == '-' then -v else v)
    case None => None
  }

  lemma {:induction false} Pow10Positive(n: nat)
    ensures Pow10(n) >= 1
  {
    if n > 0 {
      Pow10Positive(n - 1);
    }
  }

  /** Scaling keeps the sign of a non-negative number. */
  lemma {:induction false} ScaleByNonNegative(x: real, e: int)
    requires 0.0 <= x
    ensures 0.0 <= ScaleBy(x, e)
    decreases if e < 0 then -e else e
  {
    if e > 0 {
      ScaleByNonNegative(x, e - 1);
    } else if e < 0 {
      ScaleByNonNegative(x, e + 1);
    }
  }

  /** Scaling by a non-negative power multiplies by 10^e. */
  lemma {:induction false} ScaleByPositive(x: real, e: nat)
    ensures ScaleBy(x, e) == x * (Pow10(e) as real)
  {
    if e > 0 {
      ScaleByPositive(x, e - 1);
      var s, s1, p, p1 := ScaleBy(x, e), ScaleBy(x, e - 1), Pow10(e) as real, Pow10(e - 1) as real;
      assert s == 10.0 * s1;
      assert p == 10.0 * p1;
      TenfoldStep(s, s1, x, p, p1);
    } else {
      TimesOne(x, Pow10(e) as real);
    }
  }

  /** Scaling by a negative power divides by 10^-e. */
  lemma {:induction false} ScaleByNegative(x: real, e: nat)
    ensures Pow10(e) >= 1
    ensures ScaleBy(x, -(e as int)) * (Pow10(e) as real) == x
    ensures ScaleBy(x, -(e as int)) == x / (Pow10(e) as real)
  {
    var s, p := ScaleBy(x, -(e as int)), Pow10(e) as real;
    if e > 0 {
      ScaleByNegative(x, e - 1);
      var s1, p1 := ScaleBy(x, -(e - 1)), Pow10(e - 1) as real;
      assert s == s1 / 10.0;
      assert p == 10.0 * p1;
      TenthStep(s, s1, x, p, p1);
    } else {
      TimesOne(s, p);
    }
    Pow10Positive(e);
    QuotientOfProduct(s, p, x);
  }

  lemma TimesOne(x: real, p: real)
    requires p == 1.0
    ensures x * p == x
  {
  }

  lemma TenfoldStep(s: real, s1: real, x: real, p: real, p1: real)
    requires s == 10.0 * s1 && s1 == x * p1 && p == 10.0 * p1
    ensures s == x * p
  {
  }

  lemma TenthStep(s: real, s1: real, x: real, p: real, p1: real)
    requires s == s1 / 10.0 && s1 * p1 == x && p == 10.0 * p1
    ensures s * p == x
  {
  }

  lemma QuotientOfProduct(r: real, p: real, x: real)
    requires p > 0.0 && r * p == x
    ensures r == x / p
  {
  }

  function DigitChar(d: nat): (c: char)
    requires d < 10
    ensures IsDigit(c) && c as int - '0' as int == d
  {
    ('0' as int + d) as char
  }

  /** The decimal rendering of a natural number, without leading zeros. */
  function NatToString(n: nat): (s: string)
    ensures |s| > 0 && AllDigits(s)
  {
    if n < 10 then [DigitChar(n)] else NatToString(n / 10) + [DigitChar(n % 10)]
  }

  function IntToString(i: int): (s: string)
    ensures |s| > 0
  {
    if i < 0 then "-" + NatToString(-i) else NatToString(i)
  }

  lemma {:induction false} NatToStringValue(n: nat)
    ensures DigitsValue(NatToString(n)) == n
  {
    if n >= 10 {
      var s := NatToString(n);
      assert s[..|s| - 1] == NatToString(n / 10);
      NatToStringValue(n / 10);
    }
  }

  /** A string none of whose characters is in `marks` has no match. */
  lemma FindNone(s: string, marks: set<char>)
    requires forall k :: 0 <= k < |s| ==> s[k] !in marks
    ensures Find(s, marks) == |s|
  {
  }

  lemma ParseMantissaDigits(d: string)
    requires |d| > 0 && AllDigits(d)
    ensures ParseMantissa(d) == Some(DigitsValue(d) as real)
  {
    FindNone(d, {'.'});
  }

  /** A plain digit string is read as its value. */
  lemma ParseUnsignedDigits(d: string)
    requires |d| > 0 && AllDigits(d)
    ensures ParseUnsigned(d) == Some(DigitsValue(d) as real)
  {
    FindNone(d, {'e', 'E'});
    assert d[..|d|] == d;
    ParseMantissaDigits(d);
  }

  /** A digit string needs no trimming and has no sign, so it is read as an unsigned numeral. */
  lemma ParseNumberOfDigits(d: string)
    requires |d| > 0 && AllDigits(d)
    ensures ParseNumber(d) == Some(DigitsValue(d) as real)
  {
    StripKeepsTrimmed(d, IsAsciiSpace);
    assert !IsSign(d[0]);
    ParseUnsignedDigits(d);
  }

  /** A digit string after a minus sign is read as the negated value. */
  lemma ParseNumberOfNegatedDigits(s: string)
    requires |s| > 1 && s[0] == '-' && AllDigits(s[1..])
    ensures ParseNumber(s) == Some(-(DigitsValue(s[1..]) as real))
  {
    assert s[|s| - 1] == s[1..][|s| - 2];
    StripKeepsTrimmed(s, IsAsciiSpace);
    ParseUnsignedDigits(s[1..]);
  }

  lemma ParseNumberOfNatural(n: nat)
    ensures ParseNumber(IntToString(n)) == Some(n as real)
  {
    NatToStringValue(n);
    ParseNumberOfDigits(NatToString(n));
  }

  lemma ParseNumberOfNegative(n: nat)
    requires n > 0
    ensures ParseNumber(IntToString(-(n as int))) == Some(-(n as real))
  {
    var s := IntToString(-(n as int));
    assert s[1..] == NatToString(n);
    NatToStringValue(n);
    ParseNumberOfNegatedDigits(s);
  }

  /** Every integer, written in decimal, is read back as itself. */
  lemma ParseNumberOfInteger(i: int)
    ensures ParseNumber(IntToString(i)) == Some(i as real)
  {
    if i < 0 {
      ParseNumberOfNegative(-i);
    } else {
      ParseNumberOfNatural(i);
    }
  }

  lemma {:induction false} FindIsLeadingCount(s: string, marks: set<char>)
    ensures Find(s, marks) == LeadingCount(s, c => c !in marks)
  {
    if |s| > 0 && s[0] !in marks {
      FindIsLeadingCount(s[1..], marks);
    }
  }

  /** The first character in `marks` is the one at `k` when none comes before it. */
  lemma {:induction false} FindAt(s: string, marks: set<char>, k: nat)
    requires k < |s| && s[k] in marks
    requires forall j :: 0 <= j < k ==> s[j] !in marks
    ensures Find(s, marks) == k
  {
    if k > 0 {
      FindAt(s[1..], marks, k - 1);
    }
  }

  /** Digits around one decimal point: the whole part plus the fraction scaled down by its length. */
  lemma ParseMantissaOfDecimal(m: string, k: nat)
    requires k < |m| && m[k] == '.' && |m| > 1
    requires AllDigits(m[..k]) && AllDigits(m[k + 1..])
    ensures ParseMantissa(m) == Some(DigitsValue(m[..k]) as real + ScaleBy(DigitsValue(m[k + 1..]) as real, -|m[k + 1..]|))
  {
    assert forall j :: 0 <= j < k ==> m[j] == m[..k][j];
    FindAt(m, {'.'}, k);
  }

  /** Text with no white space around it and no sign is read as an unsigned numeral. */
  lemma ParseNumberOfUnsigned(s: string)
    requires |s| > 0 && !IsAsciiSpace(s[0]) && !IsAsciiSpace(s[|s| - 1]) && !IsSign(s[0])
    ensures ParseNumber(s) == ParseUnsigned(s)
  {
    StripKeepsTrimmed(s, IsAsciiSpace);
  }

  /** Without an exponent mark, the whole text is the mantissa. */
  lemma ParseUnsignedOfMantissa(u: string)
    requires forall j :: 0 <= j < |u| ==> !IsExponentMark(u[j])
    ensures ParseUnsigned(u) == ParseMantissa(u)
  {
    FindNone(u, {'e', 'E'});
    assert u[..|u|] == u;
  }

  /** Digits around one decimal point: the whole part plus the fraction divided by ten to its length. */
  lemma ParseMantissaOfDecimalQuotient(m: string, k: nat)
    requires k < |m| && m[k] == '.' && |m| > 1
    requires AllDigits(m[..k]) && AllDigits(m[k + 1..])
    ensures Pow10(|m[k + 1..]|) >= 1
    ensures ParseMantissa(m) == Some(DigitsValue(m[..k]) as real + (DigitsValue(m[k + 1..]) as real) / (Pow10(|m[k + 1..]|) as real))
  {
    ParseMantissaOfDecimal(m, k);
    ScaleByNegative(DigitsValue(m[k + 1..]) as real, |m[k + 1..]|);
  }

  /**
   * A decimal numeral with a point at `k` is read as the whole part plus the
   * fraction's digits divided by ten to the number of fraction digits:
   * `1500.50` is 1500.5.
   */
  lemma ParseNumberOfDecimal(s: string, k: nat)
    requires k < |s| && s[k] == '.' && |s| > 1
    requires AllDigits(s[..k]) && AllDigits(s[k + 1..])
    ensures Pow10(|s[k + 1..]|) >= 1
    ensures ParseNumber(s) == Some(DigitsValue(s[..k]) as real + (DigitsValue(s[k + 1..]) as real) / (Pow10(|s[k + 1..]|) as real))
  {
    forall j | 0 <= j < |s| ensures IsDigit(s[j]) || s[j] == '.' {
      if j < k {
        assert s[j] == s[..k][j];
      } else if j > k {
        assert s[j] == s[k + 1..][j - k - 1];
      }
    }
    ParseMantissaOfDecimalQuotient(s, k);
    ParseUnsignedOfMantissa(s);
    ParseNumberOfUnsigned(s);
  }

  /** An exponent of digits only is their value. */
  lemma ParseExponentOfDigits(x: string)
    requires |x| > 0 && AllDigits(x)
    ensures ParseExponent(x) == Some(DigitsValue(x) as int)
  {
  }

  /** An exponent of a minus sign and digits is their negated value. */
  lemma ParseExponentOfNegatedDigits(x: string)
    requires |x| > 1 && x[0] == '-' && AllDigits(x[1..])
    ensures ParseExponent(x) == Some(-(DigitsValue(x[1..]) as int))
  {
  }

  /** A mantissa, the first exponent mark at `k` and an exponent `x`: the mantissa scaled by `x`. */
  lemma ParseUnsignedOfScientific(u: string, k: nat)
    requires k < |u| && IsExponentMark(u[k])
    requires forall j :: 0 <= j < k ==> !IsExponentMark(u[j])
    requires ParseMantissa(u[..k]).Some? && ParseExponent(u[k + 1..]).Some?
    ensures ParseUnsigned(u) == Some(ScaleBy(ParseMantissa(u[..k]).value, ParseExponent(u[k + 1..]).value))
  {
    FindAt(u, {'e', 'E'}, k);
  }

  /** Text starting with a mantissa and ending in a digit has nothing to trim and no sign. */
  lemma MantissaFirst(u: string, k: nat)
    requires k < |u| && ParseMantissa(u[..k]).Some? && IsDigit(u[|u| - 1])
    ensures ParseNumber(u) == ParseUnsigned(u)
  {
    MantissaChars(u[..k]);
    assert u[0] == u[..k][0];
    ParseNumberOfUnsigned(u);
  }

  /**
   * A mantissa followed by `e` or `E` and digits is read as the mantissa times
   * ten to the power of those digits: `1.5e3` is 1500.
   */
  lemma ParseNumberOfScientific(s: string, k: nat, v: real, n: nat)
    requires k + 1 < |s| && IsExponentMark(s[k]) && ParseMantissa(s[..k]) == Some(v)
    requires AllDigits(s[k + 1..]) && DigitsValue(s[k + 1..]) == n
    ensures ParseNumber(s) == Some(v * (Pow10(n) as real))
  {
    MantissaChars(s[..k]);
    forall j | 0 <= j < k ensures !IsExponentMark(s[j]) {
      assert s[j] == s[..k][j];
    }
    ParseExponentOfDigits(s[k + 1..]);
    ParseUnsignedOfScientific(s, k);
    assert s[|s| - 1] == s[k + 1..][|s| - k - 2];
    MantissaFirst(s, k);
    ScaleByPositive(v, n);
  }

  /**
   * A mantissa followed by `e-` or `E-` and digits is read as the mantissa
   * divided by ten to the power of those digits: `25e-2` is 0.25.
   */
  lemma ParseNumberOfNegativeScientific(s: string, k: nat, v: real, n: nat)
    requires k + 2 < |s| && IsExponentMark(s[k]) && s[k + 1] == '-' && ParseMantissa(s[..k]) == Some(v)
    requires AllDigits(s[k + 2..]) && DigitsValue(s[k + 2..]) == n
    ensures Pow10(n) >= 1
    ensures ParseNumber(s) == Some(v / (Pow10(n) as real))
  {
    MantissaChars(s[..k]);
    forall j | 0 <= j < k ensures !IsExponentMark(s[j]) {
      assert s[j] == s[..k][j];
    }
    assert s[k + 1..][1..] == s[k + 2..];
    ParseExponentOfNegatedDigits(s[k + 1..]);
    ParseUnsignedOfScientific(s, k);
    assert s[|s| - 1] == s[k + 2..][|s| - k - 3];
    MantissaFirst(s, k);
    ScaleByNegative(v, n);
  }

  lemma MantissaChars(m: string)
    requires ParseMantissa(m).Some?
    ensures forall k :: 0 <= k < |m| ==> IsDigit(m[k]) || m[k] == '.'
  {
    var k0 := Find(m, {'.'});
    if k0 == |m| {
      return;
    }
    JoinedChars(m, m[..k0], m[k0 + 1..], k0, IsDigit, c => IsDigit(c) || c == '.');
  }

  lemma ExponentChars(e: string)
    requires ParseExponent(e).Some?
    ensures forall k :: 0 <= k < |e| ==> IsDigit(e[k]) || IsSign(e[k])
  {
    if IsSign(e[0]) {
      forall k | 1 <= k < |e| ensures IsDigit(e[k]) {
        assert e[k] == e[1..][k - 1];
      }
    }
  }

  /** A successfully read unsigned numeral has a readable mantissa, and a readable exponent after any `e`/`E`. */
  lemma UnsignedParts(u: string)
    requires ParseUnsigned(u).Some?
    ensures ParseMantissa(u[..Find(u, {'e', 'E'})]).Some?
    ensures Find(u, {'e', 'E'}) < |u| ==> ParseExponent(u[Find(u, {'e', 'E'}) + 1..]).Some?
  {
  }

  /**
   * A string cut at position `k0` into `head` and `tail`: when every character
   * of the head satisfies `p`, every one of the tail satisfies `q` and the cut
   * character satisfies `q` too, every character satisfies `q`.
   */
  lemma JoinedChars(u: string, head: string, tail: string, k0: nat, p: char -> bool, q: char -> bool)
    requires k0 <= |u| && head == u[..k0] && (k0 < |u| ==> tail == u[k0 + 1..] && q(u[k0]))
    requires forall c :: p(c) ==> q(c)
    requires forall k :: 0 <= k < |head| ==> p(head[k])
    requires k0 < |u| ==> forall k :: 0 <= k < |tail| ==> q(tail[k])
    ensures forall k :: 0 <= k < |u| ==> q(u[k])
  {
    forall k | 0 <= k < |u| ensures q(u[k]) {
      if k < k0 {
        assert u[k] == head[k];
      } else if k > k0 {
        assert u[k] == tail[k - k0 - 1];
      }
    }
  }

  lemma UnsignedChars(u: string)
    requires ParseUnsigned(u).Some?
    ensures forall k :: 0 <= k < |u| ==> IsNumeralBodyChar(u[k])
  {
    var k0 := Find(u, {'e', 'E'});
    UnsignedParts(u);
    var m, e := u[..k0], if k0 < |u| then u[k0 + 1..] else "";
    MantissaChars(m);
    if k0 < |u| {
      ExponentChars(e);
    }
    JoinedChars(u, m, e, k0, c => IsDigit(c) || c == '.', IsNumeralBodyChar);
  }

  /** Text that pandas reads as a number consists of numeral characters only. */
  lemma ParsedTextIsNumeral(s: string)
    requires ParseNumber(s).Some?
    ensures forall k :: 0 <= k < |s| ==> IsNumeralBodyChar(s[k]) || IsAsciiSpace(s[k])
  {
    var t := Strip(s, IsAsciiSpace);
    var i := LeadingCount(s, IsAsciiSpace);
    if |t| > 0 && IsSign(t[0]) {
      UnsignedChars(t[1..]);
      assert forall k :: 0 <= k < |t| ==> IsNumeralBodyChar(t[k]) by {
        forall k | 1 <= k < |t| ensures IsNumeralBodyChar(t[k]) {
          assert t[k] == t[1..][k - 1];
        }
      }
    } else {
      UnsignedChars(t);
    }
    forall k | 0 <= k < |s| ensures IsNumeralBodyChar(s[k]) || IsAsciiSpace(s[k]) {
      if i <= k < i + |t| {
        assert s[k] == t[k - i];
      }
    }
  }
}
