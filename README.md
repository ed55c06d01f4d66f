# Food Nutrient Calculator — a Dafny model of its core

The Food Nutrient Calculator is a single Streamlit page, `app.py`. It reads
a food composition table from a spreadsheet. It drops the rows that have no
food name and stops when one of the eleven required columns is missing.
It offers every food as the option `"<code> - **<name>**"`. It splits the
chosen option back into a code and a name, finds the first row whose
"Food Code" equals the stripped code, and reads that row's nine nutrient
values into a dict. In that dict, it replaces every `"value ± uncertainty"`
string by the number at its start, found by the regular expression
`[0-9]*\.?[0-9]+`. Finally it multiplies each value by `quantity / 100`.

This project models that core and proves what it does:

- `ValueParser` is `extract_value`: `re.match` with its backtracking,
  then `float`.
- `Labels` covers the option label and `str.split(" - **")`, including the
  two-name unpacking. It also covers `str.strip()` over the characters
  Python counts as whitespace.
- `FoodTable` covers the table:
  - cells that are a number, a text, NaN or `None`;
  - dropping rows without a name;
  - the required-column check;
  - the options;
  - the first row with a given code.
- `Nutrients` covers the nine-field dict. Its in-place normalisation loop
  is a method over an array, proved against a function. It also covers
  the scaling comprehension, including the `TypeError` that a string or
  `None` value raises.
- `Calculator` is the page script from the loaded table to its outcome:
  - stopped at the schema check;
  - the placeholder warning;
  - an unpacking error;
  - nothing shown;
  - a scaling error;
  - or the nine scaled amounts.

  `RunPage` runs it the way the script does, normalising the dict in
  place.

Numbers are Dafny `real`s. So the model states the exact arithmetic of
the page, not its floating-point rounding.

Some of what app.py does is not what a user of the page would expect.
The model states what the code does:

- **A "±" string with no leading number.** A user would expect that
  nutrient to be skipped. The code turns it into `None` at line 92, and
  line 95 then raises a `TypeError`, which aborts the page.
- **A plain text value without "±".** An energy stored as the text `"130"`
  looks like a number to a user. The code does not convert it, so line 95
  raises a `TypeError` (`ReportTextWithoutMarkerFails`).
- **A code that no row has.** A user would expect a message. The code
  shows nothing at all: its only warning is for the placeholder (line 102).
- **A code that several rows share.** The code does not report the
  ambiguity. It takes the first row with that code (line 78, `values[0]`).
- **The name shown.** It keeps the closing `**` of the label. Line 64
  splits on `" - **"` only, so the name part of `"A001 - **Rice**"` is
  `"Rice**"` (`LabelRoundTrip`).
- **A code with a blank at either end.** Its row is still offered (line
  58). But line 74 compares the stripped code with the unstripped cell,
  so picking that option never finds that row (`LookupOfUnstrippedCode`).

## Model

| member | source | states |
|---|---|---|
| `ValueParser.DigitRun` | app.py:70 | the greedy `[0-9]*` run at an index is all digits, stays in bounds, and is not followed by a digit |
| `ValueParser.MatchLength` | app.py:70 | `re.match` of `[0-9]*\.?[0-9]+` at the start of `s`: a match is a non-empty prefix of `s`; `MatchIsPattern`, `MatchIsLongest` and `MatchFailsIffNoPatternPrefix` say which one |
| `ValueParser.MatchIsPattern` | app.py:70 | a successful `re.match` covers a prefix of `s` that is in the language of `[0-9]*\.?[0-9]+` |
| `ValueParser.MatchIsLongest` | app.py:70 | no longer prefix of `s` is in that language: the match is the longest one, as greedy matching with backtracking gives |
| `ValueParser.MatchFailsIffNoPatternPrefix` | app.py:70-71 | the match fails exactly when no prefix of `s` is in the pattern's language |
| `ValueParser.ExtractValue` | app.py:69-71 | `extract_value(s)` is `None` exactly when `s` starts neither with a digit nor with a dot followed by a digit, and a value it reads is never negative; which value is stated by `ExtractInteger` and `ExtractDecimalAt` |
| `ValueParser.ExtractInteger` | app.py:69-71 | a run of digits not followed by a dot and a digit reads as its integer value, whatever text follows |
| `ValueParser.ExtractDecimalAt` | app.py:69-71 | digits, a dot and digits not followed by a digit read as the decimal number they spell |
| `ValueParser.ExtractDecimal` | app.py:69-71 | `whole + "." + frac + rest` reads as `whole.frac` when `rest` does not start with a digit |
| `ValueParser.ExtractUncertaintyExample` | app.py:69-71 | "2.5 ± 0.1" reads as 2.5 |
| `ValueParser.ExtractDanglingDotExample` | app.py:69-71 | "12. x" reads as 12: the pattern backtracks over a dot with no digit after it |
| `ValueParser.ExtractLeadingDotExample` | app.py:69-71 | ".5" reads as 0.5 |
| `ValueParser.ExtractIntegerExample` | app.py:69-71 | "7" reads as 7 |
| `ValueParser.ExtractRejectsExamples` | app.py:69-71 | " 12", "-3" and "n/a" give `None`: no leading blank, sign or word is accepted |
| `Labels.TrimStart` | app.py:74 | the leading part of `strip`: removes exactly the leading whitespace, leaving a text that does not start with whitespace |
| `Labels.TrimEnd` | app.py:74 | the trailing part of `strip`: removes exactly the trailing whitespace |
| `Labels.StripIsInfix` | app.py:74 | `s.strip()` is `s` less a head and a tail made only of whitespace |
| `Labels.Strip` | app.py:74 | `s.strip()` is no longer than `s` and neither starts nor ends with whitespace; `StripIsInfix` says what it removes |
| `Labels.StripKeepsTrimmed` | app.py:74 | a text without leading or trailing whitespace is left unchanged |
| `Labels.FindSep` | app.py:64 | finds the first occurrence of `" - **"` at or after an index, or reports that there is none |
| `Labels.Split` | app.py:64 | `str.split` always gives at least one piece |
| `Labels.SplitJoin` | app.py:64 | joining the pieces of the split with `" - **"` gives the text back |
| `Labels.SplitPiecesFree` | app.py:64 | no piece of the split contains the separator |
| `Labels.SepNoOverlap` | app.py:64 | two occurrences of the separator never overlap |
| `Labels.SplitLabel` | app.py:64 | the two-name unpacking succeeds exactly when the split has two pieces, and then the selection is code, separator, name |
| `Labels.SplitAround` | app.py:64 | `a + " - **" + b` splits into exactly `[a, b]` when neither part contains the separator |
| `Labels.SplitAroundTwoOnlyIfFree` | app.py:64 | if `a + " - **" + b` splits into two pieces, neither part contains the separator |
| `Labels.Label` | app.py:58 | the option `f"{code} - **{name}**"` is the code, the separator, the name and `**`, in that order and with that length |
| `Labels.LabelRoundTrip` | app.py:58-64 | splitting the label `f"{code} - **{name}**"` gives `(code, name + "**")` exactly when neither part contains the separator |
| `Labels.LabelWithSepFails` | app.py:58-64 | a label whose code or name contains the separator fails to unpack with "too many values" |
| `FoodTable.AllPresent` | app.py:47 | `all(column in df.columns ...)` holds exactly when every required column is present |
| `FoodTable.DropMissingNames` | app.py:40 | `dropna(subset=["Food Name"])` keeps exactly the rows whose name is not NaN or `None` |
| `FoodTable.DropMissingNamesAppend` | app.py:40 | dropping works row by row: on two tables one after the other it gives the drop of the first followed by the drop of the second, so order and repetitions are kept |
| `FoodTable.DropMissingNamesIdempotent` | app.py:40 | dropping a second time removes nothing more |
| `FoodTable.Load` | app.py:40-49 | the `KeyError` of line 40 happens exactly when there is no "Food Name" column; a table that loads keeps the columns, has as rows exactly the drop of the input rows, and every row has every required column |
| `FoodTable.LoadOkIff` | app.py:40-49 | loading passes exactly when all eleven required columns are there, and then yields the drop of the input rows, with the same columns, each row holding every required column |
| `FoodTable.MissingEnergyStops` | app.py:43-49 | a table without "Energy" stops the page |
| `FoodTable.OptionOf` | app.py:55-58 | a row is offered exactly when its code and its name are both texts (the inner `dropna` of line 55), and its option is never the placeholder |
| `FoodTable.LabelIsNotPlaceholder` | app.py:58-62 | no option label equals the placeholder "Select a food item" |
| `FoodTable.FoodLabels` | app.py:55-58 | the options are exactly the labels of the rows whose code and name are texts |
| `FoodTable.FirstWithCode` | app.py:74-75 | `df[df["Food Code"] == code]`, first row: the first index with that code, or none exactly when no row has it |
| `FoodTable.FirstWithCodeIs` | app.py:74-75 | a row with the code and no earlier row with it is the one the lookup finds |
| `FoodTable.FirstNamedWithCode` | app.py:40-75 | the first row of the spreadsheet that has a name and the code, or none exactly when no named row has it |
| `FoodTable.FirstWithCodeAfterDrop` | app.py:40-75 | looking a code up after the drop finds nothing exactly when no named row has it, and otherwise finds that first named row |
| `Nutrients.NutrientsOf` | app.py:77-87 | the dict has the nine nutrient keys in order, each holding the row's value |
| `Nutrients.NormalizeCell` | app.py:91-92 | a value that is not a "±" string is kept; a "±" string becomes a non-negative number, or `None` exactly when it starts neither with a digit nor with a dot and a digit; no "±" string is left |
| `Nutrients.Normalized` | app.py:90-92 | the normalised dict has as many entries as the dict |
| `Nutrients.NormalizeInPlace` | app.py:90-92 | the loop leaves in the array the normalised dict of what it held before |
| `Nutrients.NormalizedChangesOnlyUncertain` | app.py:90-92 | the loop keeps the keys and their order, leaves every value that is not a "±" string unchanged, and replaces each "±" string by the number `extract_value` finds, or `None` |
| `Nutrients.NormalizedIdempotent` | app.py:90-92 | after the loop no "±" string is left, so a second pass changes nothing |
| `Nutrients.NormalizeUncertaintyExample` | app.py:91-92 | "2.5 ± 0.1" becomes the number 2.5 |
| `Nutrients.Scale` | app.py:95 | the comprehension succeeds exactly when every value is a number or NaN, and then keeps the keys and multiplies each number by `quantity / 100` (NaN stays NaN) |
| `Nutrients.ScaleFailsAtFirstNonNumber` | app.py:95 | when it fails, the `TypeError` comes from the first value that is a string or `None` |
| `Nutrients.ScaleExample` | app.py:95 | 2.5 g of protein and 130 kcal per 100 g are 5 g and 260 kcal in 200 g |
| `Nutrients.ScaleOutcomeIndependentOfQuantity` | app.py:95 | whether the scaling fails does not depend on the quantity |
| `Nutrients.ScaleAt100IsIdentity` | app.py:95 | at 100 g the scaled dict is the dict itself |
| `Nutrients.ScaleIsLinear` | app.py:95 | scaling is linear: the amounts for `q2` are those for `q1` times `q2 / q1`, under the same keys |
| `Nutrients.NormalizedScaleFailsIff` | app.py:90-95 | the page raises at line 95 exactly when some value is a text without "±", or a "±" text with no leading number; such a value never becomes zero |
| `Calculator.Lookup` | app.py:62-75 | the lookup ends in the placeholder warning exactly for the placeholder, otherwise in an unpacking error, nothing found, or a row index in range |
| `Calculator.LookupIsFirstMatch` | app.py:62-75 | the lookup stops at the placeholder; with the split's own error exactly when the label does not unpack into two names; with nothing found exactly when no row has the stripped code; otherwise it finds the first row with that code, together with the stripped code and name |
| `Calculator.LookupFindsFirstNamedRow` | app.py:40-75 | the row found is the first row of the spreadsheet, among those with a name, whose code is the stripped code |
| `Calculator.Report` | app.py:77-95 | the report on a row either shows the nine nutrients, in order, for the quantity, code and name given, or fails with the `TypeError` at one of the nine nutrients |
| `Calculator.Page` | app.py:40-102 | the page stops exactly when loading fails, prompts exactly for the placeholder on a loaded table, and when it shows amounts they are the nine nutrients for the quantity entered |
| `Calculator.RunPage` | app.py:40-100 | running the page script, with the dict normalised in place, ends in the outcome the page function describes |
| `Calculator.RunReport` | app.py:77-95 | building, normalising in place and scaling the dict ends in the report of that row |
| `Calculator.PageAfterLoad` | app.py:62-95 | once the table has loaded, the page ends where the lookup stops, or in the report on the row it found |
| `Calculator.PageStopsIff` | app.py:43-49 | the page stops before any selection exactly when a required column is missing |
| `Calculator.LookupOfLabel` | app.py:58-75 | picking the option of a row finds the first row with its code, with the name carrying the closing `**` |
| `Calculator.LookupOfUnstrippedCode` | app.py:58-75 | a row whose code has a blank at either end is offered, but picking its option finds nothing or a different row, one whose code is the stripped code |
| `Calculator.PageShowsLabelledRow` | app.py:58-95 | picking the option of the first row with a code (no blank around it, no separator in it) reports on that row, whatever the quantity |
| `Calculator.PageNotFound` | app.py:74-75 | a code that no row has ends the page with nothing shown, neither an error nor zero amounts |
| `Calculator.ReportAt100` | app.py:95-100 | at 100 g the page shows the row's per-100 g values, with the "±" strings reduced to their numbers |
| `Calculator.ReportIsLinear` | app.py:95-100 | what the report shows is linear in the quantity, and whether it shows anything does not depend on it |
| `Calculator.PageIsLinear` | app.py:62-100 | the same for the whole page: the table and the selection fix the row, and the quantity only scales it |
| `Calculator.ReportExample` | app.py:77-100 | a row with protein "2.5 ± 0.1" and energy 130 shows 5 g of protein and 260 kcal for 200 g |
| `Calculator.ReportTextWithoutMarkerFails` | app.py:91-95 | a row whose energy is the text "130" makes line 95 raise at "Energy" |

## Left out

- The Streamlit calls (title, selectbox, number input, `st.write`,
  `st.error`, `st.warning`) are left out. The page's result is the
  `Outcome` value. `Stopped(MissingColumns)` is `st.error` followed by
  `st.stop()` (lines 47-49). `Stopped(MissingNameColumn)` is the
  `KeyError` that `dropna` raises at line 40 when there is no "Food Name"
  column.
- The background image (lines 6-29) is left out. It is file I/O and CSS
  with no bearing on the computation.
- `pd.read_excel` and `st.cache_data` (lines 32-37) are left out. The
  model starts from the table already read, as rows of cells.
- Floating-point rounding and the `:.2f` formatting with its "g" and "kcal"
  units (line 100) are left out. Amounts are exact `real`s. `Shown`
  carries the amounts, the quantity, the code and the name that line 98
  prints.
- `str()` of non-text cells in the option labels (line 58) is not modelled.
  A row whose code or name is a number, or that lacks one of the two
  columns, is not offered (`FoodTable.OptionOf`).
- pandas dtype details are left out. A cell is a number, a text, NaN or
  `None`. A numeric "Food Code" never equals the text code of a label.
- `quantity` comes from `st.number_input(min_value=1)` and is an integer
  of at least 1. `Page` accepts any integer, and the linearity lemmas
  require a first quantity of at least 1.
- `FoodTable.DropMissingNames` states in its own contract only which rows
  are kept. Their order and repetitions are stated by
  `FoodTable.DropMissingNamesAppend`, and the first match across the drop
  by `FoodTable.FirstWithCodeAfterDrop`.
- `Calculator.Lookup` states in its own contract only which outcomes it
  can end in. Which row it finds is stated by `Calculator.LookupIsFirstMatch`.
