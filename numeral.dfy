/**
 * An independent account of which texts `pandas.to_numeric` reads as numbers:
 * a finite automaton that scans the text one character at a time, and the
 * proof that it accepts exactly the texts `Numeric.ParseNumber` reads.
 */
module Numeral {
  import opened Optional
  import opened PyStr
  import opened Numeric

  /** How much of a numeral has been scanned so far. */
  datatype State =
    | Start     // only white space so far
    | Signed    // a sign
    | Whole     // digits before any point
    | Point     // a point with no digit before it
    | Fraction  // a point with a digit before or after it
    | Mark      // an exponent mark
    | MarkSign  // the exponent's sign
    | Power     // exponent digits
    | Trailing  // white space after a complete numeral
    | Dead      // not a numeral, whatever follows

  function Step(q: State, c: char): State
  {
    if IsAsciiSpace(c) then
      match q
      case Start => Start
      case Whole | Fraction | Power | Trailing => Trailing
      case _ => Dead
    else if IsDigit(c) then
      match q
      case Start | Signed | Whole => Whole
      case Point | Fraction => Fraction
      case Mark | MarkSign | Power => Power
      case _ => Dead
    else if c == '.' then
      match q
      case Start | Signed => Point
      case Whole => Fraction
      case _ => Dead
    else if IsExponentMark(c) then
      match q
      case Whole | Fraction => Mark
      case _ => Dead
    else if IsSign(c) then
      match q
      case Start => Signed
      case Mark => MarkSign
      case _ => Dead
    else
      Dead
  }

  /** The state reached from `q` after scanning `s`. */
  function Run(q: State, s: string): State
  {
    if s == [] then q else Step(Run(q, s[..|s| - 1]), s[|s| - 1])
  }

  predicate Accepting(q: State)
  {
    q == Whole || q == Fraction || q == Power || q == Trailing
  }

  /** The text is a numeral: white space, a sign, a mantissa, an exponent and white space, each as allowed. */
  predicate IsNumeral(s: string)
  {
    Accepting(Run(Start, s))
  }

  /** Scanning a text cut at `k` is scanning the first part, then the rest. */
  lemma {:induction false} RunSplit(q: State, s: string, k: nat)
    requires k <= |s|
    ensures Run(q, s) == Run(Run(q, s[..k]), s[k..])
    decreases |s|
  {
    if k < |s| {
      var s' := s[..|s| - 1];
      RunSplit(q, s', k);
      assert s'[..k] == s[..k];
      assert s[k..][..|s| - k - 1] == s'[k..];
    } else {
      assert s[..k] == s;
    }
  }

  lemma RunFirst(q: State, s: string)
    requires |s| > 0
    ensures Run(q, s) == Run(Step(q, s[0]), s[1..])
  {
    RunSplit(q, s, 1);
    assert s[..1][..0] == [];
  }

  /** A run of digits leads where its first digit does. */
  lemma {:induction false} DigitsRun(q: State, d: string)
    requires |d| > 0 && AllDigits(d)
    ensures Run(q, d) == Step(q, '0')
    decreases |d|
  {
    if |d| > 1 {
      DigitsRun(q, d[..|d| - 1]);
    } else {
      assert d[..0] == [];
    }
  }

  /** Scanning a text is scanning up to position `j`, the character at `j`, then the rest. */
  lemma RunAt(q: State, s: string, j: nat)
    requires j < |s|
    ensures Run(q, s) == Run(Step(Run(q, s[..j]), s[j]), s[j + 1..])
  {
    RunSplit(q, s, j);
    RunFirst(Run(q, s[..j]), s[j..]);
    assert s[j..][1..] == s[j + 1..];
  }

  lemma {:induction false} DeadStays(s: string)
    ensures Run(Dead, s) == Dead
    decreases |s|
  {
    if |s| > 0 {
      DeadStays(s[..|s| - 1]);
    }
  }

  /** Once dead or trailing, a scan never becomes an unfinished numeral again. */
  lemma {:induction false} Over(q: State, s: string)
    requires q == Trailing || q == Dead
    ensures Run(q, s) == Trailing || Run(q, s) == Dead
    decreases |s|
  {
    if |s| > 0 {
      Over(q, s[..|s| - 1]);
    }
  }

  /** The states reached once a mantissa can no longer continue. */
  predicate Late(q: State)
  {
    q == Mark || q == MarkSign || q == Power || q == Trailing || q == Dead
  }

  lemma {:induction false} StaysLate(q: State, s: string)
    requires Late(q)
    ensures Late(Run(q, s))
    decreases |s|
  {
    if |s| > 0 {
      StaysLate(q, s[..|s| - 1]);
    }
  }

  /** Only white space at the very start keeps the automaton in its start state. */
  lemma {:induction false} NeverStart(q: State, s: string)
    requires q != Start
    ensures Run(q, s) != Start
    decreases |s|
  {
    if |s| > 0 {
      NeverStart(q, s[..|s| - 1]);
    }
  }

  /** The states reachable without an exponent mark. */
  predicate BeforeMark(q: State)
  {
    q == Signed || q == Whole || q == Point || q == Fraction || q == Trailing || q == Dead
  }

  lemma {:induction false} NoMarkNoExponent(q: State, s: string)
    requires BeforeMark(q)
    requires forall i :: 0 <= i < |s| ==> !IsExponentMark(s[i])
    ensures BeforeMark(Run(q, s))
    decreases |s|
  {
    if |s| > 0 {
      NoMarkNoExponent(q, s[..|s| - 1]);
    }
  }

  /** White space scanned at the start leaves the automaton where it began. */
  lemma {:induction false} LeadingSpace(s: string)
    requires forall i :: 0 <= i < |s| ==> IsAsciiSpace(s[i])
    ensures Run(Start, s) == Start
    decreases |s|
  {
    if |s| > 0 {
      LeadingSpace(s[..|s| - 1]);
    }
  }

  /** White space scanned at the end neither completes nor spoils a numeral. */
  lemma {:induction false} TrailingSpace(q: State, s: string)
    requires forall i :: 0 <= i < |s| ==> IsAsciiSpace(s[i])
    ensures Accepting(Run(q, s)) == Accepting(q)
    decreases |s|
  {
    if |s| > 0 {
      TrailingSpace(q, s[..|s| - 1]);
    }
  }

  /** A scan that ends on a character other than white space does not end trailing. */
  lemma NotTrailing(q: State, s: string)
    requires |s| > 0 && !IsAsciiSpace(s[|s| - 1])
    ensures Run(q, s) != Trailing
  {
  }

  /** A character that is neither a digit nor a point ends the mantissa for good. */
  lemma MantissaBadChar(m: string, j: nat)
    requires j < |m| && !IsDigit(m[j]) && m[j] != '.'
    ensures Late(Run(Signed, m))
  {
    RunAt(Signed, m, j);
    NeverStart(Signed, m[..j]);
    StaysLate(Step(Run(Signed, m[..j]), m[j]), m[j + 1..]);
  }

  /** Digits then a point `p` reached: more digits complete the fraction, a second point kills it. */
  lemma FractionRun(p: State, f: string)
    requires p == Point || p == Fraction
    requires forall i :: 0 <= i < |f| ==> IsDigit(f[i]) || f[i] == '.'
    ensures Run(p, f) in {Whole, Fraction} <==> (AllDigits(f) && (|f| > 0 || p == Fraction))
  {
    if AllDigits(f) {
      if |f| > 0 {
        DigitsRun(p, f);
      } else {
        assert f == [];
      }
    } else {
      var j := LeadingCount(f, IsDigit);
      assert AllDigits(f[..j]) by {
        forall i | 0 <= i < j ensures IsDigit(f[..j][i]) {
          assert f[..j][i] == f[i];
        }
      }
      assert Run(p, f[..j]) in {Point, Fraction} by {
        if j > 0 {
          DigitsRun(p, f[..j]);
        } else {
          assert f[..j] == [];
        }
      }
      RunAt(p, f, j);
      DeadStays(f[j + 1..]);
    }
  }

  /** Digits after a sign: a mantissa state exactly when there is at least one. */
  lemma WholeRun(w: string)
    requires AllDigits(w)
    ensures Run(Signed, w) == if |w| == 0 then Signed else Whole
  {
    if |w| > 0 {
      DigitsRun(Signed, w);
    } else {
      assert w == [];
    }
  }

  /** Digits, a point at `k`, then digits and points: a mantissa state exactly when the rest is digits and something besides the point was read. */
  lemma PointRun(m: string, k: nat)
    requires k < |m| && m[k] == '.' && AllDigits(m[..k])
    requires forall i :: k < i < |m| ==> IsDigit(m[i]) || m[i] == '.'
    ensures Run(Signed, m) in {Whole, Fraction} <==> AllDigits(m[k + 1..]) && |m| > 1
  {
    var frac := m[k + 1..];
    WholeRun(m[..k]);
    RunAt(Signed, m, k);
    var p := Step(Run(Signed, m[..k]), m[k]);
    assert p == if k == 0 then Point else Fraction;
    FractionRun(p, frac) by {
      forall i | 0 <= i < |frac| ensures IsDigit(frac[i]) || frac[i] == '.' {
        assert frac[i] == m[k + 1 + i];
      }
    }
  }

  /** On digits and points only, the scan after a sign follows the first point. */
  lemma MantissaRun(m: string)
    requires forall i :: 0 <= i < |m| ==> IsDigit(m[i]) || m[i] == '.'
    ensures Find(m, {'.'}) == |m| ==> AllDigits(m) && (Run(Signed, m) in {Whole, Fraction} <==> |m| > 0)
    ensures Find(m, {'.'}) < |m| ==>
      AllDigits(m[..Find(m, {'.'})]) &&
      (Run(Signed, m) in {Whole, Fraction} <==> AllDigits(m[Find(m, {'.'}) + 1..]) && |m| > 1)
  {
    var k := Find(m, {'.'});
    assert AllDigits(m[..k]) by {
      forall i | 0 <= i < k ensures IsDigit(m[..k][i]) {
        assert m[..k][i] == m[i];
      }
    }
    if k == |m| {
      assert m[..k] == m;
      WholeRun(m);
    } else {
      PointRun(m, k);
    }
  }

  /** After a sign, the automaton reaches a mantissa state exactly on the mantissas `ParseMantissa` reads. */
  lemma MantissaAccepted(m: string)
    ensures Run(Signed, m) in {Whole, Fraction} <==> ParseMantissa(m).Some?
  {
    if exists j :: 0 <= j < |m| && !IsDigit(m[j]) && m[j] != '.' {
      var j :| 0 <= j < |m| && !IsDigit(m[j]) && m[j] != '.';
      MantissaBadChar(m, j);
      if ParseMantissa(m).Some? {
        MantissaChars(m);
      }
    } else {
      MantissaRun(m);
    }
  }

  /** From an exponent mark or its sign, a character other than a digit after `j` digits ends the exponent for good. */
  lemma BrokenExponent(q: State, d: string, j: nat)
    requires q == Mark || q == MarkSign
    requires q == Mark && |d| > 0 ==> !IsSign(d[0])
    requires j < |d| && !IsDigit(d[j]) && AllDigits(d[..j])
    ensures Run(q, d) == Trailing || Run(q, d) == Dead
  {
    var r := Run(q, d[..j]);
    assert r == if j == 0 then q else Power by {
      if j > 0 {
        DigitsRun(q, d[..j]);
      } else {
        assert d[..j] == [];
      }
    }
    RunAt(q, d, j);
    Over(Step(r, d[j]), d[j + 1..]);
  }

  /** From an exponent mark or its sign, the scan reaches exponent digits exactly on a nonempty run of digits. */
  lemma ExponentRun(q: State, d: string)
    requires q == Mark || q == MarkSign
    requires q == Mark && |d| > 0 ==> !IsSign(d[0])
    ensures Run(q, d) == Power <==> |d| > 0 && AllDigits(d)
  {
    if AllDigits(d) {
      if |d| > 0 {
        DigitsRun(q, d);
      } else {
        assert d == [];
      }
    } else {
      var j := LeadingCount(d, IsDigit);
      assert AllDigits(d[..j]) by {
        forall i | 0 <= i < j ensures IsDigit(d[..j][i]) {
          assert d[..j][i] == d[i];
        }
      }
      BrokenExponent(q, d, j);
    }
  }

  /** After an exponent mark, the automaton reaches the exponent-digit state exactly on the exponents `ParseExponent` reads. */
  lemma ExponentAccepted(x: string)
    ensures Run(Mark, x) == Power <==> ParseExponent(x).Some?
  {
    if |x| > 0 && IsSign(x[0]) {
      RunFirst(Mark, x);
      ExponentRun(MarkSign, x[1..]);
    } else {
      ExponentRun(Mark, x);
    }
  }

  /** Without an exponent mark, the scan after a sign accepts exactly a mantissa. */
  lemma MantissaOnlyAccepted(u: string)
    requires u == [] || !IsAsciiSpace(u[|u| - 1])
    requires forall i :: 0 <= i < |u| ==> !IsExponentMark(u[i])
    ensures Accepting(Run(Signed, u)) <==> ParseMantissa(u).Some?
  {
    MantissaAccepted(u);
    NoMarkNoExponent(Signed, u);
    if |u| > 0 {
      NotTrailing(Signed, u);
    }
  }

  /** With an exponent mark at `k`, the scan after a sign accepts exactly a mantissa before it and an exponent after it. */
  lemma ScientificAccepted(u: string, k: nat)
    requires k < |u| && IsExponentMark(u[k]) && !IsAsciiSpace(u[|u| - 1])
    ensures Accepting(Run(Signed, u)) <==> ParseMantissa(u[..k]).Some? && ParseExponent(u[k + 1..]).Some?
  {
    MantissaAccepted(u[..k]);
    ExponentAccepted(u[k + 1..]);
    ScientificRun(u, k);
  }

  /** The scan of a text with an exponent mark at `k` accepts exactly when the mantissa and then the exponent are complete. */
  lemma ScientificRun(u: string, k: nat)
    requires k < |u| && IsExponentMark(u[k]) && !IsAsciiSpace(u[|u| - 1])
    ensures Accepting(Run(Signed, u)) <==> Run(Signed, u[..k]) in {Whole, Fraction} && Run(Mark, u[k + 1..]) == Power
  {
    var x := u[k + 1..];
    RunAt(Signed, u, k);
    var p := Step(Run(Signed, u[..k]), u[k]);
    if p == Mark {
      if x == [] {
        assert Run(p, x) == Mark;
      } else {
        assert x[|x| - 1] == u[|u| - 1];
        NotTrailing(p, x);
        StaysLate(p, x);
      }
    } else {
      assert p == Dead;
      DeadStays(x);
    }
  }

  /** After a sign, the automaton accepts exactly the unsigned numerals `ParseUnsigned` reads, when no white space ends them. */
  lemma UnsignedAccepted(u: string)
    requires u == [] || !IsAsciiSpace(u[|u| - 1])
    ensures Accepting(Run(Signed, u)) <==> ParseUnsigned(u).Some?
  {
    var k := Find(u, {'e', 'E'});
    if k == |u| {
      assert u[..k] == u;
      MantissaOnlyAccepted(u);
    } else {
      ScientificAccepted(u, k);
    }
  }

  /** White space around a text does not change whether it is a numeral. */
  lemma SpaceAround(s: string)
    ensures IsNumeral(s) == Accepting(Run(Start, Strip(s, IsAsciiSpace)))
  {
    var i := LeadingCount(s, IsAsciiSpace);
    var t := Strip(s, IsAsciiSpace);
    var j := i + |t|;
    RunSplit(Start, s, i);
    LeadingSpace(s[..i]);
    RunSplit(Start, s[i..], |t|);
    assert s[i..][..|t|] == t;
    assert s[i..][|t|..] == s[j..];
    TrailingSpace(Run(Start, t), s[j..]) by {
      forall k | 0 <= k < |s| - j ensures IsAsciiSpace(s[j..][k]) {
        assert s[j..][k] == s[j + k];
      }
    }
  }

  /** A sign first: the scan continues from the sign state. */
  lemma SignFirst(t: string)
    requires |t| > 0 && IsSign(t[0])
    ensures Run(Start, t) == Run(Signed, t[1..])
  {
    RunFirst(Start, t);
  }

  /** No sign and no white space first: the scan goes as if a sign had been read. */
  lemma NoSignFirst(t: string)
    requires |t| > 0 && !IsSign(t[0]) && !IsAsciiSpace(t[0])
    ensures Run(Start, t) == Run(Signed, t)
  {
    RunFirst(Start, t);
    RunFirst(Signed, t);
  }

  /** The automaton accepts exactly the texts `ParseNumber` reads as a number. */
  lemma ParseNumberAccepts(s: string)
    ensures ParseNumber(s).Some? <==> IsNumeral(s)
  {
    SpaceAround(s);
    var t := Strip(s, IsAsciiSpace);
    if t == [] {
      assert ParseMantissa(t) == None;
    } else if IsSign(t[0]) {
      SignFirst(t);
      UnsignedAccepted(t[1..]);
    } else {
      NoSignFirst(t);
      UnsignedAccepted(t);
    }
  }

  /** Scanning one more character is one more step. */
  lemma Extend(q: State, s: string, c: char)
    ensures Run(q, s + [c]) == Step(Run(q, s), c)
  {
    assert (s + [c])[..|s|] == s;
  }

  /** A second decimal point: `1.2.3` is not a numeral. */
  lemma TwoPointsExample()
    ensures !IsNumeral("1.2.3")
  {
    assert "1.2.3" == [] + ['1'] + ['.'] + ['2'] + ['.'] + ['3'];
    Extend(Start, [], '1');
    Extend(Start, [] + ['1'], '.');
    Extend(Start, [] + ['1'] + ['.'], '2');
    Extend(Start, [] + ['1'] + ['.'] + ['2'], '.');
    Extend(Start, [] + ['1'] + ['.'] + ['2'] + ['.'], '3');
  }

  /** An exponent mark with no digits after it: `1e` is not a numeral. */
  lemma EmptyExponentExample()
    ensures !IsNumeral("1e")
  {
    assert "1e" == [] + ['1'] + ['e'];
    Extend(Start, [], '1');
    Extend(Start, [] + ['1'], 'e');
  }

  /** Two signs: `--5` is not a numeral. */
  lemma TwoSignsExample()
    ensures !IsNumeral("--5")
  {
    assert "--5" == [] + ['-'] + ['-'] + ['5'];
    Extend(Start, [], '-');
    Extend(Start, [] + ['-'], '-');
    Extend(Start, [] + ['-'] + ['-'], '5');
  }

  /** A point with no digit on either side: `.` is not a numeral. */
  lemma LonePointExample()
    ensures !IsNumeral(".")
  {
    assert "." == [] + ['.'];
    Extend(Start, [], '.');
  }

  /** A thousands separator: `1,500` is not a numeral. */
  lemma SeparatorExample()
    ensures !IsNumeral("1,500")
  {
    assert "1,500" == [] + ['1'] + [','] + ['5'] + ['0'] + ['0'];
    Extend(Start, [], '1');
    Extend(Start, [] + ['1'], ',');
    Extend(Start, [] + ['1'] + [','], '5');
    Extend(Start, [] + ['1'] + [','] + ['5'], '0');
    Extend(Start, [] + ['1'] + [','] + ['5'] + ['0'], '0');
  }
}
