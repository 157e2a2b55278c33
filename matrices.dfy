/**
 * Loading the two matrices: the canonical form of the key columns, of the
 * `Applicable` flag and of `FeeINR`, applied to rows that have already been
 * read from the workbook's "Applicability" and "Fees" sheets.
 */
module Matrices {
  import opened Optional
  import opened PyStr
  import Numeric
  import Numeral

  /** A row of the "Applicability" sheet as read; `None` is an empty cell. */
  datatype RawApplicabilityRow = RawApplicabilityRow(
    service: Option<string>, subService: Option<string>, clientType: Option<string>, applicable: Option<string>)

  /** A `FeeINR` cell: a number, or text (an empty cell reads as the empty text). */
  datatype FeeCell = Number(amount: real) | Text(text: string)

  /** A row of the "Fees" sheet as read. */
  datatype RawFeeRow = RawFeeRow(
    service: Option<string>, subService: Option<string>, clientType: Option<string>, fee: FeeCell)

  datatype ApplicabilityRow = ApplicabilityRow(service: string, subService: string, clientType: string, applicable: bool)

  datatype FeeRow = FeeRow(service: string, subService: string, clientType: string, fee: real)

  /** The canonical form of a key: no white space at either end and no lower-case letter. */
  predicate IsNormalKey(s: string) {
    (s == [] || (!IsSpace(s[0]) && !IsSpace(s[|s| - 1]))) && NoAsciiLower(s)
  }

  /** `normalize_str`: a missing value counts as the empty string; trim, then upper-case. */
  function NormalizeStr(x: Option<string>): (r: string)
    ensures IsNormalKey(r)
    ensures x.None? ==> r == ""
  {
    Upper(Strip(x.GetOr(""), IsSpace))
  }

  /** The normalised strings are exactly the fixed points of `normalize_str`. */
  lemma NormalizeStrFixedPoints(s: string)
    ensures NormalizeStr(Some(s)) == s <==> IsNormalKey(s)
  {
    if IsNormalKey(s) {
      StripKeepsTrimmed(s, IsSpace);
      UpperKeepsUpper(s);
    }
  }

  lemma NormalizeStrIdempotent(x: Option<string>)
    ensures NormalizeStr(Some(NormalizeStr(x))) == NormalizeStr(x)
  {
    NormalizeStrFixedPoints(NormalizeStr(x));
  }

  /** The `SubService` column's mapping: an empty cell becomes "", anything else is normalised. */
  function NormalizeSubService(v: Option<string>): (r: string)
    ensures r == NormalizeStr(v)
  {
    match v
    case None => ""
    case Some(_) => NormalizeStr(v)
  }

  /** An empty cell and a cell holding the empty text (what `fillna("")` writes) are read alike. */
  lemma EmptyCellIsEmptyText()
    ensures NormalizeStr(None) == NormalizeStr(Some("")) == ""
    ensures NormalizeSubService(None) == NormalizeSubService(Some("")) == ""
    ensures ParseApplicable(None) == ParseApplicable(Some("")) == false
    ensures ParseFee(Text("")) == 0.0
  {
    FeeOfBlankIsZero();
  }

  /** The spellings of a true `Applicable` cell once upper-cased. */
  const TrueSpellings: set<string> := {"TRUE", "1", "YES"}

  /** The `Applicable` column: the upper-cased text is one of the true spellings. */
  function ParseApplicable(cell: Option<string>): (b: bool)
    ensures cell.None? ==> !b
  {
    Upper(cell.GetOr("")) in TrueSpellings
  }

  /** `a` and `b` have the same length and agree once each character is upper-cased. */
  predicate EqualsIgnoringCase(a: string, b: string) {
    |a| == |b| && forall i :: 0 <= i < |a| ==> UpperChar(a[i]) == UpperChar(b[i])
  }

  /** A cell is true exactly when it spells TRUE, 1 or YES in any mixture of case. */
  lemma ApplicableSpellings(s: string)
    ensures ParseApplicable(Some(s)) <==>
              s == "1" || EqualsIgnoringCase(s, "TRUE") || EqualsIgnoringCase(s, "YES")
  {
    var u := Upper(s);
    if s == "1" {
      assert u == "1";
    }
    if u == "1" {
      assert UpperChar(s[0]) == '1';
      assert s == "1";
    }
    if EqualsIgnoringCase(s, "TRUE") {
      assert u == "TRUE";
    }
    if EqualsIgnoringCase(s, "YES") {
      assert u == "YES";
    }
  }

  /** The cell is not trimmed: white space at either end makes it false. */
  lemma ApplicableIsNotTrimmed(s: string)
    requires |s| > 0 && (IsSpace(s[0]) || IsSpace(s[|s| - 1]))
    ensures !ParseApplicable(Some(s))
  {
    var u := Upper(s);
    assert IsSpace(u[0]) || IsSpace(u[|u| - 1]);
    assert forall t :: t in TrueSpellings ==> !IsSpace(t[0]) && !IsSpace(t[|t| - 1]);
  }

  lemma ApplicableIgnoresCase(s: string)
    ensures ParseApplicable(Some(Upper(s))) == ParseApplicable(Some(s))
  {
    UpperKeepsUpper(Upper(s));
  }

  /** The `FeeINR` column: numbers keep their value, text is read as a numeral, and what cannot be read is 0. */
  function ParseFee(c: FeeCell): (v: real)
    ensures c.Number? ==> v == c.amount
    ensures c.Text? && !Numeral.IsNumeral(c.text) ==> v == 0.0
  {
    match c
    case Number(a) => a
    case Text(t) =>
      Numeral.ParseNumberAccepts(t);
      Numeric.ParseNumber(t).GetOr(0.0)
  }

  lemma FeeOfBlankIsZero()
    ensures ParseFee(Text("")) == 0.0
  {
    assert Numeric.ParseNumber("") == None;
  }

  lemma FeeOfIntegerText(i: int)
    ensures ParseFee(Text(Numeric.IntToString(i))) == i as real
  {
    Numeric.ParseNumberOfInteger(i);
  }

  /** Text with any character that cannot belong to a numeral (a letter other than e, a comma, a currency sign) is 0. */
  lemma FeeOfNonNumeralTextIsZero(t: string, k: nat)
    requires k < |t| && !Numeric.IsNumeralBodyChar(t[k]) && !Numeric.IsAsciiSpace(t[k])
    ensures ParseFee(Text(t)) == 0.0
  {
    if Numeric.ParseNumber(t).Some? {
      Numeric.ParsedTextIsNumeral(t);
    }
  }

  /** Text that is a numeral is the number it denotes. */
  lemma FeeOfNumeralText(t: string)
    requires Numeral.IsNumeral(t)
    ensures Numeric.ParseNumber(t).Some? && ParseFee(Text(t)) == Numeric.ParseNumber(t).value
  {
    Numeral.ParseNumberAccepts(t);
  }

  /** Malformed numerals (two points, a bare exponent mark, two signs, a lone point, a separator) are 0. */
  lemma MalformedFeeExamples()
    ensures ParseFee(Text("1.2.3")) == 0.0 && ParseFee(Text("1e")) == 0.0 && ParseFee(Text("--5")) == 0.0
    ensures ParseFee(Text(".")) == 0.0 && ParseFee(Text("1,500")) == 0.0
  {
    Numeral.TwoPointsExample();
    Numeral.EmptyExponentExample();
    Numeral.TwoSignsExample();
    Numeral.LonePointExample();
    Numeral.SeparatorExample();
  }

  /** Every key column of the row is in canonical form. */
  ghost predicate NormalApplicabilityRow(r: ApplicabilityRow) {
    IsNormalKey(r.service) && IsNormalKey(r.subService) && IsNormalKey(r.clientType)
  }

  /** Every key column of the row is in canonical form. */
  ghost predicate NormalFeeRow(r: FeeRow) {
    IsNormalKey(r.service) && IsNormalKey(r.subService) && IsNormalKey(r.clientType)
  }

  function NormalizeApplicabilityRow(r: RawApplicabilityRow): (n: ApplicabilityRow)
    ensures NormalApplicabilityRow(n)
    ensures r.subService.None? ==> n.subService == ""
  {
    ApplicabilityRow(NormalizeStr(r.service), NormalizeSubService(r.subService),
                     NormalizeStr(r.clientType), ParseApplicable(r.applicable))
  }

  function NormalizeFeeRow(r: RawFeeRow): (n: FeeRow)
    ensures NormalFeeRow(n)
    ensures r.subService.None? ==> n.subService == ""
  {
    FeeRow(NormalizeStr(r.service), NormalizeSubService(r.subService),
           NormalizeStr(r.clientType), ParseFee(r.fee))
  }

  /** Every key column of the applicability table is in canonical form. */
  ghost predicate NormalizedApplicability(app: seq<ApplicabilityRow>) {
    forall i :: 0 <= i < |app| ==> NormalApplicabilityRow(app[i])
  }

  /** Every key column of the fee table is in canonical form. */
  ghost predicate NormalizedFees(fees: seq<FeeRow>) {
    forall i :: 0 <= i < |fees| ==> NormalFeeRow(fees[i])
  }

  /** `Series.map`: applies `f` to every cell of a column, keeping length and order. */
  method MapColumn<A, B>(f: A -> B, column: seq<A>) returns (mapped: seq<B>)
    ensures |mapped| == |column|
    ensures forall i :: 0 <= i < |column| ==> mapped[i] == f(column[i])
  {
    mapped := [];
    var i := 0;
    while i < |column|
      invariant 0 <= i <= |column| && |mapped| == i
      invariant forall k :: 0 <= k < i ==> mapped[k] == f(column[k])
    {
      mapped := mapped + [f(column[i])];
      i := i + 1;
    }
  }

  /** The key and `Applicable` columns of the "Applicability" sheet, normalised row by row. */
  method NormalizeApplicabilityTable(rawApp: seq<RawApplicabilityRow>) returns (app: seq<ApplicabilityRow>)
    ensures |app| == |rawApp| && forall i :: 0 <= i < |app| ==> app[i] == NormalizeApplicabilityRow(rawApp[i])
    ensures NormalizedApplicability(app)
  {
    app := MapColumn(NormalizeApplicabilityRow, rawApp);
  }

  /** The key and `FeeINR` columns of the "Fees" sheet, normalised row by row. */
  method NormalizeFeeTable(rawFees: seq<RawFeeRow>) returns (fees: seq<FeeRow>)
    ensures |fees| == |rawFees| && forall i :: 0 <= i < |fees| ==> fees[i] == NormalizeFeeRow(rawFees[i])
    ensures NormalizedFees(fees)
  {
    fees := MapColumn(NormalizeFeeRow, rawFees);
  }

  /**
   * `load_matrices` after the sheets are parsed: each table is normalised row by
   * row, keeping its length and order.
   */
  method LoadMatrices(rawApp: seq<RawApplicabilityRow>, rawFees: seq<RawFeeRow>)
    returns (app: seq<ApplicabilityRow>, fees: seq<FeeRow>)
    ensures |app| == |rawApp| && forall i :: 0 <= i < |app| ==> app[i] == NormalizeApplicabilityRow(rawApp[i])
    ensures |fees| == |rawFees| && forall i :: 0 <= i < |fees| ==> fees[i] == NormalizeFeeRow(rawFees[i])
    ensures NormalizedApplicability(app) && NormalizedFees(fees)
  {
    app := NormalizeApplicabilityTable(rawApp);
    fees := NormalizeFeeTable(rawFees);
  }
}
