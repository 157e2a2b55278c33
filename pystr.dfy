/**
 * The parts of Python's `str` that the quotation builder relies on:
 * `isspace` and `strip`, `upper`, `title`, and the ordering `<` on strings.
 * Case mapping is modelled on ASCII letters only.
 */
module PyStr {

  /** `str.isspace()` for one character: ASCII controls 9-13 and 28-31, space, and the Unicode spaces. */
  predicate IsSpace(c: char) {
    || c == ' '
    || ('\t' <= c <= '\r')
    || ('\U{1C}' <= c <= '\U{1F}')
    || c == '\U{85}'
    || c == '\U{A0}'
    || c == '\U{1680}'
    || ('\U{2000}' <= c <= '\U{200A}')
    || c == '\U{2028}'
    || c == '\U{2029}'
    || c == '\U{202F}'
    || c == '\U{205F}'
    || c == '\U{3000}'
  }

  predicate IsAsciiLower(c: char) { 'a' <= c <= 'z' }
  predicate IsAsciiUpper(c: char) { 'A' <= c <= 'Z' }
  predicate IsAsciiLetter(c: char) { IsAsciiLower(c) || IsAsciiUpper(c) }

  function UpperChar(c: char): (u: char)
    ensures !IsAsciiLower(u)
    ensures IsAsciiLetter(u) <==> IsAsciiLetter(c)
    ensures IsSpace(u) <==> IsSpace(c)
    ensures !IsAsciiLower(c) ==> u == c
  {
    if IsAsciiLower(c) then (c as int - 32) as char else c
  }

  function LowerChar(c: char): (l: char)
    ensures !IsAsciiUpper(l)
    ensures IsAsciiLetter(l) <==> IsAsciiLetter(c)
    ensures !IsAsciiUpper(c) ==> l == c
  {
    if IsAsciiUpper(c) then (c as int + 32) as char else c
  }

  /** No character of `s` is a lower-case ASCII letter. */
  predicate NoAsciiLower(s: string) {
    forall i :: 0 <= i < |s| ==> !IsAsciiLower(s[i])
  }

  /** `str.upper()`: every character mapped through UpperChar, nothing else changed. */
  function Upper(s: string): (r: string)
    ensures |r| == |s|
    ensures forall i :: 0 <= i < |s| ==> r[i] == UpperChar(s[i])
    ensures NoAsciiLower(r)
  {
    if s == [] then [] else [UpperChar(s[0])] + Upper(s[1..])
  }

  lemma UpperKeepsUpper(s: string)
    requires NoAsciiLower(s)
    ensures Upper(s) == s
  {
  }

  /** The number of leading characters of `s` that satisfy `sp`. */
  function LeadingCount(s: string, sp: char -> bool): (n: nat)
    ensures n <= |s|
    ensures forall k :: 0 <= k < n ==> sp(s[k])
    ensures n < |s| ==> !sp(s[n])
  {
    if |s| > 0 && sp(s[0]) then 1 + LeadingCount(s[1..], sp) else 0
  }

  /** Drops the trailing characters satisfying `sp`. */
  function TrimEnd(s: string, sp: char -> bool): (r: string)
    ensures |r| <= |s| && r == s[..|r|]
    ensures forall k :: |r| <= k < |s| ==> sp(s[k])
    ensures r == [] || !sp(r[|r| - 1])
  {
    if |s| > 0 && sp(s[|s| - 1]) then TrimEnd(s[..|s| - 1], sp) else s
  }

  /**
   * `str.strip()` generalised over the set of characters removed: the result is
   * the slice of `s` that starts after its leading `sp` characters and leaves out
   * a run of trailing ones, and neither of its ends satisfies `sp`.
   */
  function Strip(s: string, sp: char -> bool): (r: string)
    ensures LeadingCount(s, sp) + |r| <= |s|
    ensures r == s[LeadingCount(s, sp)..LeadingCount(s, sp) + |r|]
    ensures forall k :: LeadingCount(s, sp) + |r| <= k < |s| ==> sp(s[k])
    ensures r == [] || (!sp(r[0]) && !sp(r[|r| - 1]))
  {
    var i := LeadingCount(s, sp);
    var t := s[i..];
    var r := TrimEnd(t, sp);
    assert forall k :: i + |r| <= k < |s| ==> sp(s[k]) by {
      forall k | i + |r| <= k < |s| ensures sp(s[k]) {
        assert s[k] == t[k - i];
      }
    }
    r
  }

  /** A string whose ends are not stripped is left as it is. */
  lemma StripKeepsTrimmed(s: string, sp: char -> bool)
    requires s == [] || (!sp(s[0]) && !sp(s[|s| - 1]))
    ensures Strip(s, sp) == s
  {
  }

  /** The character Python's `str.title()` writes at position `i`: the first letter of each run of letters upper-cased, the others lower-cased. */
  function TitleChar(s: string, i: nat): char
    requires i < |s|
  {
    if !IsAsciiLetter(s[i]) then s[i]
    else if i > 0 && IsAsciiLetter(s[i - 1]) then LowerChar(s[i])
    else UpperChar(s[i])
  }

  /** Python's title-casing loop, with `prevCased` the flag of the character before. */
  function TitleFrom(s: string, prevCased: bool): string
  {
    if s == [] then []
    else
      var c := s[0];
      var t := if !IsAsciiLetter(c) then c else if prevCased then LowerChar(c) else UpperChar(c);
      [t] + TitleFrom(s[1..], IsAsciiLetter(c))
  }

  lemma {:induction false} TitleFromAt(s: string, prevCased: bool)
    ensures |TitleFrom(s, prevCased)| == |s|
    ensures forall i :: 1 <= i < |s| ==> TitleFrom(s, prevCased)[i] == TitleChar(s, i)
    ensures |s| > 0 ==>
              TitleFrom(s, prevCased)[0] ==
              (if !IsAsciiLetter(s[0]) then s[0] else if prevCased then LowerChar(s[0]) else UpperChar(s[0]))
  {
    if s != [] {
      var tail := s[1..];
      TitleFromAt(tail, IsAsciiLetter(s[0]));
      forall i | 1 <= i < |s| ensures TitleFrom(s, prevCased)[i] == TitleChar(s, i) {
        assert TitleFrom(s, prevCased)[i] == TitleFrom(tail, IsAsciiLetter(s[0]))[i - 1];
        if i > 1 {
          assert TitleChar(tail, i - 1) == TitleChar(s, i);
        }
      }
    }
  }

  /** `str.title()`. */
  function Title(s: string): (r: string)
    ensures |r| == |s|
    ensures forall i :: 0 <= i < |s| ==> r[i] == TitleChar(s, i)
  {
    TitleFromAt(s, false);
    TitleFrom(s, false)
  }

  /**
   * Title-casing loses no information on strings without lower-case letters,
   * such as the upper-cased matrix keys: distinct keys keep distinct display text.
   */
  lemma TitleInjective(a: string, b: string)
    requires NoAsciiLower(a) && NoAsciiLower(b)
    ensures Title(a) == Title(b) <==> a == b
  {
    if Title(a) == Title(b) {
      TitleInjectiveStep(a, b);
    }
  }

  lemma TitleInjectiveStep(a: string, b: string)
    requires NoAsciiLower(a) && NoAsciiLower(b)
    requires Title(a) == Title(b)
    ensures a == b
  {
    assert |a| == |b|;
    assert forall i :: 0 <= i < |a| ==> (IsAsciiLetter(a[i]) <==> IsAsciiLetter(b[i])) by {
      forall i | 0 <= i < |a| ensures IsAsciiLetter(a[i]) <==> IsAsciiLetter(b[i]) {
        assert Title(a)[i] == Title(b)[i];
      }
    }
    forall i | 0 <= i < |a| ensures a[i] == b[i] {
      assert TitleChar(a, i) == TitleChar(b, i);
    }
  }

  /** Python's `<` on strings: lexicographic by code point, a proper prefix first. */
  predicate StrLt(a: string, b: string) {
    if a == [] then b != []
    else if b == [] then false
    else a[0] < b[0] || (a[0] == b[0] && StrLt(a[1..], b[1..]))
  }

  lemma {:induction false} StrLtIrreflexive(a: string)
    ensures !StrLt(a, a)
  {
    if a != [] {
      StrLtIrreflexive(a[1..]);
    }
  }

  lemma {:induction false} StrLtTransitive(a: string, b: string, c: string)
    requires StrLt(a, b) && StrLt(b, c)
    ensures StrLt(a, c)
  {
    if a != [] && a[0] == b[0] && b[0] == c[0] {
      StrLtTransitive(a[1..], b[1..], c[1..]);
    }
  }

  lemma {:induction false} StrLtTotal(a: string, b: string)
    requires a != b
    ensures StrLt(a, b) || StrLt(b, a)
  {
    if a != [] && b != [] && a[0] == b[0] {
      StrLtTotal(a[1..], b[1..]);
    }
  }

  /** The ordering on upper-cased text and on title-cased text can disagree: "AB" comes before "A_", but "A_" before "Ab". */
  lemma TitleOrderDiffersFromKeyOrder()
    ensures StrLt("AB", "A_") && Title("AB") == "Ab" && StrLt(Title("A_"), Title("AB"))
  {
    assert Title("AB")[1] == 'b';
    assert Title("A_") == "A_";
  }
}
