# Quotation builder: the matrix-driven quote assembly, in Dafny

This project models the quote-assembly core of the quotation generator of
V. Purohit & Associates (`app.py`). The tool reads two matrices. The
*applicability matrix* says which service and sub-service is offered to which
client type. The *fee matrix* gives the fee of each (service, sub-service,
client type). For a chosen client type, the tool assembles a fee table and
its grand total.

Two steps are modelled:

- **Loading** (`load_matrices`, after the sheets are parsed). The key columns
  `Service`, `SubService` and `ClientType` of both matrices are trimmed and
  upper-cased (`normalize_str`). `Applicable` becomes a boolean. `FeeINR`
  becomes a number, and 0 when it cannot be read.
- **Quote building** (`build_quote`). The tool keeps the applicability rows
  for the normalised client type whose `Applicable` is true. It left-joins
  them with the fee matrix on (Service, SubService, ClientType), and the join
  must be one-to-one. Unmatched rows get a fee of 0. Service and SubService
  are title-cased, the table is sorted by those two columns, and the fees are
  summed into the total.

Files, one module each:

- `option.dfy` (`Optional`): the option type used for empty cells and failed lookups.
- `pystr.dfy` (`PyStr`): the Python string operations the core uses.
  These are `str.isspace`/`strip`, `upper`, `title`, and the ordering `<` on strings.
- `numeric.dfy` (`Numeric`): what `pandas.to_numeric(errors="coerce")` makes of a text cell.
- `numeral.dfy` (`Numeral`): a finite automaton that recognises numerals one
  character at a time, proved to accept exactly the texts `Numeric.ParseNumber` reads.
- `matrices.dfy` (`Matrices`): the row types, `normalize_str`, the
  `Applicable` and `FeeINR` conversions, and the loading method `LoadMatrices`.
  `LoadMatrices` loops over both tables.
- `quote.dfy` (`Quote`): `build_quote` as a pipeline of functions, and the lemmas about it.

`Matrices.LoadMatrices` models `load_matrices`, `Quote.BuildQuote` models
`build_quote`, and `Numeric.ParseNumber` models `to_numeric` on one text cell.

Rows are datatypes and tables are `seq`s. A key or `Applicable` cell is an
`Option<string>`, where `None` is an empty cell; `Some("")`, the empty text
that `fillna("")` writes, is read the same way. A `FeeINR` cell is a number
or a text. Fees are exact `real`s.

Three facts about the code shape the model:

- **Sort key.** The lines are sorted after title-casing, so the sort compares
  the title-cased text (app.py:63-65). This can order two lines differently
  from their upper-cased keys. `PyStr.TitleOrderDiffersFromKeyOrder` shows that
  "AB" comes before "A_" but "A_" comes before "Ab".
- **Where duplicate fee keys fail.** Loading accepts duplicate keys. The
  merge's `validate="1:1"` rejects them inside `build_quote` (app.py:56-61).
  It checks the whole fee matrix, across all client types, and also the
  filtered applicability rows.
- **No pricing options.** app.py has no plan choices, event selections,
  re-categorisation, discount or GST, so none are modelled.

## Model

| member | source | states |
|---|---|---|
| `Matrices.NormalizeStr` | app.py:28-29 | the result is a normalised key (no white space at either end, no lower-case letter); a missing value gives "" |
| `Matrices.NormalizeStrFixedPoints` | app.py:28-29 | `normalize_str` leaves a string unchanged exactly when it is already normalised (both directions) |
| `Matrices.NormalizeStrIdempotent` | app.py:28-29 | normalising twice is the same as normalising once |
| `PyStr.Strip` | app.py:29 | `strip()` returns the slice of the input left after removing its leading white space and a run of trailing white space; neither end of the result is white space |
| `PyStr.StripKeepsTrimmed` | app.py:29 | a string with no white space at its ends is returned unchanged by `strip()` |
| `PyStr.Upper` | app.py:29 | `upper()` keeps the length, maps each character through the ASCII upper-case map, and leaves no lower-case letter |
| `PyStr.UpperKeepsUpper` | app.py:29 | upper-casing a string without lower-case letters changes nothing |
| `Matrices.NormalizeSubService` | app.py:40 | the `SubService` mapping (an empty cell gives "", anything else is normalised) equals `normalize_str`, so a missing sub-service becomes "" |
| `Matrices.ParseApplicable` | app.py:43 | an empty `Applicable` cell is false |
| `Matrices.ApplicableSpellings` | app.py:43 | `Applicable` is true exactly when the text is "1" or spells TRUE or YES in any mix of cases |
| `Matrices.ApplicableIsNotTrimmed` | app.py:43 | the text is not trimmed, so white space at either end (" yes") makes it false |
| `Matrices.ApplicableIgnoresCase` | app.py:43 | upper-casing the text first does not change the flag |
| `Matrices.ParseFee` | app.py:45 | a numeric `FeeINR` cell keeps its value; a text cell that is not a numeral (as the automaton `Numeral.IsNumeral` defines it) becomes 0 |
| `Matrices.FeeOfNumeralText` | app.py:45 | a text cell that is a numeral becomes the number `to_numeric` reads from it |
| `Matrices.MalformedFeeExamples` | app.py:45 | "1.2.3", "1e", "--5", "." and "1,500" each become 0 |
| `Matrices.EmptyCellIsEmptyText` | app.py:37-45 | an empty cell (`None`) and the empty text that `fillna("")` writes are read alike: "" as a key, false as `Applicable`, 0 as a fee |
| `Matrices.FeeOfBlankIsZero` | app.py:37-45 | an empty `FeeINR` cell (filled with "") becomes 0 |
| `Matrices.FeeOfIntegerText` | app.py:45 | the decimal text of any integer becomes that integer |
| `Matrices.FeeOfNonNumeralTextIsZero` | app.py:45 | text holding a character that no numeral can contain (a letter other than e, a comma, a currency sign) becomes 0 |
| `Numeric.ParseNumberOfInteger` | app.py:45 | `to_numeric` reads the decimal rendering of every integer back as that integer |
| `Numeric.ParsedTextIsNumeral` | app.py:45 | text that `to_numeric` accepts consists only of digits, signs, '.', 'e', 'E' and ASCII white space |
| `Numeric.ParseNumberOfDigits` | app.py:45 | a plain digit string is read as the number it denotes |
| `Numeric.ParseNumberOfNegatedDigits` | app.py:45 | a minus sign followed by digits is read as the negated number |
| `Numeric.NatToStringValue` | app.py:45 | the digit string of a natural number has that number as its value |
| `Numeric.ScaleByPositive` | app.py:45 | scaling by a non-negative exponent `e` multiplies by ten to the power `e` |
| `Numeric.ScaleByNegative` | app.py:45 | scaling by a negative exponent `-e` divides by ten to the power `e`, and multiplying back gives the original |
| `Numeric.ParseNumberOfDecimal` | app.py:45 | digits, a point and digits (`1500.50`) are read as the whole part plus the fraction digits divided by ten to their count |
| `Numeric.ParseNumberOfScientific` | app.py:45 | a mantissa, `e` or `E` and digits (`1.5e3`) are read as the mantissa times ten to the power of those digits |
| `Numeric.ParseNumberOfNegativeScientific` | app.py:45 | a mantissa, `e-` and digits (`25e-2`) are read as the mantissa divided by ten to the power of those digits |
| `Numeral.MantissaAccepted` | app.py:45 | after a sign, the automaton reaches a mantissa state exactly on the mantissas the parser reads |
| `Numeral.ExponentAccepted` | app.py:45 | after an exponent mark, the automaton reaches the exponent-digit state exactly on the exponents the parser reads |
| `Numeral.ParseNumberAccepts` | app.py:45 | `to_numeric` reads a number from a text exactly when the automaton accepts it (both directions) |
| `Numeral.TwoPointsExample` | app.py:45 | "1.2.3" is not a numeral |
| `Numeral.EmptyExponentExample` | app.py:45 | "1e" is not a numeral |
| `Numeral.TwoSignsExample` | app.py:45 | "--5" is not a numeral |
| `Numeral.LonePointExample` | app.py:45 | "." is not a numeral |
| `Numeral.SeparatorExample` | app.py:45 | "1,500" is not a numeral |
| `Matrices.NormalizeApplicabilityRow` | app.py:39-43 | a normalised applicability row has normalised Service, SubService and ClientType (`NormalApplicabilityRow`), and an empty SubService cell gives "" |
| `Matrices.NormalizeFeeRow` | app.py:38-45 | a normalised fee row has normalised Service, SubService and ClientType (`NormalFeeRow`), and an empty SubService cell gives "" |
| `Matrices.MapColumn` | app.py:39-41 | `Series.map` applies the function to every cell of a column, keeping its length and order |
| `Matrices.NormalizeApplicabilityTable` | app.py:38-43 | the applicability sheet is normalised row by row, keeping length and order; every key of the result is normalised |
| `Matrices.NormalizeFeeTable` | app.py:38-45 | the fee sheet is normalised row by row, keeping length and order; every key of the result is normalised |
| `Matrices.LoadMatrices` | app.py:38-46 | both matrices are returned normalised row by row, with every key column in normal form |
| `PyStr.Title` | app.py:63-64 | `title()` keeps the length; the first letter of each run of letters is upper-cased, the other letters lower-cased, and everything else is unchanged |
| `PyStr.TitleFromAt` | app.py:63-64 | Python's left-to-right title-casing loop writes, at each position, the character that the run-of-letters rule prescribes |
| `PyStr.TitleInjective` | app.py:63-64 | on strings without lower-case letters (normalised keys), two strings have the same title case exactly when they are equal |
| `PyStr.StrLtIrreflexive` | app.py:65 | Python string order is irreflexive |
| `PyStr.StrLtTransitive` | app.py:65 | Python string order is transitive |
| `PyStr.StrLtTotal` | app.py:65 | any two different strings are ordered one way or the other |
| `PyStr.TitleOrderDiffersFromKeyOrder` | app.py:63-65 | sorting title-cased text can order two lines differently from sorting their upper-cased keys |
| `Quote.OfferedKeys` | app.py:49-55 | the filtered left side holds a key exactly when some applicability row for the normalised client type with `Applicable` true has it, and is no longer than the matrix |
| `Quote.OfferedKeysDistinct` | app.py:56-61 | the left side of the merge is unique exactly when no two offered rows share a key |
| `Quote.OfferedKeysEmpty` | app.py:49-55 | the left side is empty exactly when no row is offered to the client type |
| `Quote.Unique` | app.py:60 | the merge's uniqueness test holds exactly when no element occurs twice |
| `Quote.MatchedFee` | app.py:56-61 | the lookup finds nothing exactly when no fee row has the key, and otherwise returns the fee of a fee row with that key |
| `Quote.QuotedFeeIsTheFee` | app.py:56-62 | with unique fee keys, a joined row receives the fee of the one fee row with its key, or 0 (and is kept) when there is none |
| `Quote.RightDuplicatedIff` | app.py:60 | the fee side is unique exactly when no two fee rows, of any client type, share a key |
| `Quote.BuildQuoteFailure` | app.py:56-61 | `build_quote` fails exactly when a key repeats among the offered rows or anywhere in the fee matrix; the error says whether the left side, the right side or both are at fault, in pandas' order |
| `Quote.BuildQuoteLines` | app.py:49-64 | a line is in the quote exactly when it comes from an applicability row with the normalised client type and `Applicable` true; it carries the title-cased Service and SubService, the normalised client type (not title-cased), and that row's joined fee |
| `Quote.BuildQuoteKeepsEveryRow` | app.py:56-65 | the quote has one line per offered row (its length is that of the filtered rows) and is a reordering of the merged, title-cased rows |
| `Quote.Sort` | app.py:65 | the sorted table is a permutation of its input in ascending (Service, SubService) order |
| `Quote.SortStrictlySorted` | app.py:65 | rows whose sort columns are pairwise distinct are sorted into strictly ascending order |
| `Quote.StrictlySortedUnique` | app.py:65 | two strictly ascending orderings of the same rows are identical, so the result does not depend on the sort algorithm |
| `Quote.BuildQuoteSorted` | app.py:63-65 | the quote is ascending by title-cased Service, then SubService; on normalised matrices it is strictly ascending, with no ties |
| `Quote.SumFeesSort` | app.py:65-66 | sorting does not change the sum of the fees |
| `Quote.SumFeesTitleLines` | app.py:63-66 | title-casing does not change the sum of the fees |
| `Quote.BuildQuoteTotal` | app.py:62-66 | the total is the sum of the quoted fees, and equals the sum of the joined fees in matrix order |
| `Quote.BuildQuoteNoOfferedRows` | app.py:49-66 | a client type with no offered rows gets an empty quote with total 0, provided the fee keys are unique |
| `Quote.BuildQuoteEmpty` | app.py:49-66 | a successful quote is empty exactly when no row is offered to the client type |
| `Quote.BuildQuoteNormalizesClientType` | app.py:49 | the client type is normalised first: " llp" and "LLP" get the same quote |

## Left out

- Reading the workbook (`pd.ExcelFile`, `xl.parse` and the default `matrices.xlsx`, app.py:31-37) is file I/O. The model starts from the parsed rows. A key or `Applicable` cell left empty is `None`. `fillna("")` turns it into the empty text, and `Matrices.EmptyCellIsEmptyText` shows that `None` and `Some("")` are read alike.
- The checks for whether the `Applicable` and `FeeINR` columns exist (app.py:42, 44) are not modelled. The row datatypes fix the columns, so a sheet without them is not represented.
- Key cells are modelled as text or empty. In the source, a non-zero numeric cell in a key column makes `normalize_str` raise.
- `Applicable` cells are modelled as text. A boolean or numeric cell goes through `astype(str)` first. For example, a TRUE cell corresponds to the text "True", and `1.0` is not one of the true spellings.
- Case mapping (`upper`, `title`) covers ASCII letters only; other characters are left as they are. A non-ASCII letter also ends a word for `Title`: "CAFÉS" becomes "CafÉS" where Python gives "Cafés", and "café" normalises to "CAFé" where Python gives "CAFÉ". `strip` uses Python's full set of white-space characters.
- `to_numeric` text: the spellings "inf" and "infinity" are read as nothing (fee 0) in the model, while pandas reads them as infinity. Floating-point rounding and overflow are not modelled. Fees are exact reals, and so is the sum (app.py:66).
- `make_pdf` (app.py:73-126) is not modelled. It is document layout, date formatting and currency formatting.
- The Streamlit page (app.py:128-166) is not modelled: the sidebar upload, the form, the messages and the download button. The client-name check (app.py:149) is a UI guard. `build_quote` ignores `client_name`, so `BuildQuote` takes no such parameter.
- The column renames to "Client Type" and "Fee (₹)" (app.py:67-70) only change display labels; `QuoteLine` has fixed fields. Extra columns of the fee sheet that the merge passes through are not modelled.
- The in-place column overwrites and `sort_values(inplace=True)` (app.py:62-65) are modelled as functions that return new sequences. The frame they change is a fresh copy made by `.copy()` and `merge`, so no caller sees the update in place.
- Quote.Sort: the model uses an insertion sort. On normalised matrices there are no ties, and `StrictlySortedUnique` shows any algorithm gives the same result. On tables that are not normalised, rows can tie after title-casing, and the order of tied rows is not modelled.
- `LoadMatrices` normalises row by row, where the source maps whole columns. The result is the same.
