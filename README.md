# CSV cleaning scripts and log error extractor, modelled in Dafny

The repository holds two small tools.

- Four variants of a **CSV normalizer** (`parse_csvTest.py`, `parsepro_csv.py`,
  `parse_csv.py`, `csvt.py`). Each reads a `;`-separated customer file as text, then:
  - renames the header (strip, lower-case, `' '` → `'_'`);
  - turns pseudo-empty cells into nulls;
  - converts the typed columns (`id_client` and `age` to integers, the two date columns to dates, `montant_total_eur` to a number, `actif` and `newsletter_ok` to booleans);
  - drops the rows left with no value.

  The token lists, the boolean maps and the handling of absent columns differ between the variants. Each module copies its own script's constants.
- A **log error extractor** (`collect_errors.py`). It scans the `.log` files of a directory, keeps every line containing `ERROR` as `"[file name] stripped line"`, and writes the entries one per line to `errors_YYYYMMDD-HHMMSS.log`.

The model starts from the table that `read_csv` produced and stops before `to_csv`.

- A cell is `Null`, `Text`, `Int`, `Bool`, an exact decimal `Dec`, or a calendar `Date`. A table is a header plus rows of cells.
- Each cleaning step is a function on tables, and the properties are proved about those functions.
- The scripts that change a frame step by step run against the `Frames.Frame` class. Its header and rows are fields that the methods overwrite, and each method's contract ties the new state to the step's function.
  - When a script rebinds `df` to the result of `replace` or `dropna`, the model updates the one frame in place. No other reference to the old frame exists, so nothing observable differs.
- A conversion that pandas would abort with an exception ends in `Err`. The cases are a column that is missing where the script does not check for it (`KeyError`), a column name that occurs twice after renaming, and, in `parse_csv.py`, the `.str` accessor on a currency column that holds only booleans and nulls (`AttributeError`).
- The extractor's loops are methods proved equal to recursive specification functions.

Modules:
- `wrappers.dfy`: `Option`, `Result`, `Outcome`.
- `seqs.dfy`: order-preserving `Filter`.
- `pytext.dfy`: Python's `str.strip` (with Python's whitespace set, U+00A0 included), `lower`, `replace`, `in`, `endswith`.
- `numerals.dfy`: digit strings, integer and exact-decimal parsing, zero-padded rendering.
- `calendar.dfy`: dates, the strict `%Y-%m-%d` reader.
- `tables.dfy`: cells, tables, header rename, token nulling, column conversion, row drop.
- `coercions.dfy`: per-cell conversions shared by the scripts.
- `frames.dfy`: the mutable frame.
- `parse_csv_test.dfy`, `parsepro_csv.dfy`, `parse_csv.dfy`, `csvt.dfy`, `collect_errors.dfy`: one module per script.

## Model

| member | source | states |
|---|---|---|
| PyText.Strip | parse_csvTest.py:26 | the result is the slice of the input between its leading and trailing Python whitespace (U+00A0 included); everything cut off is whitespace and the result neither starts nor ends with whitespace |
| PyText.StripTrimmed | parse_csvTest.py:26 | a text with no whitespace at either end is left as it is by strip |
| PyText.Lower | parse_csvTest.py:26 | same length, every character lowered (ASCII letters) |
| PyText.LowerIdempotent | parse_csvTest.py:26 | lowering twice is lowering once |
| PyText.LowerKeepsSpaces | parse_csvTest.py:26 | lowering neither creates nor removes whitespace |
| PyText.ReplaceChar | parse_csvTest.py:26 | same length; every occurrence of the old character becomes the new one and nothing else changes |
| PyText.RemoveChar | parse_csvTest.py:66 | the removed character no longer occurs; a text without it is unchanged |
| PyText.RemoveCharConcat | parse_csvTest.py:66 | removing a character distributes over concatenation |
| PyText.RemoveCharKeeps | parsepro_csv.py:56-58 | every other character occurs in the result exactly when it occurred in the input |
| PyText.StripKeepsWord | collect_errors.py:24 | a word without whitespace inside a line is still inside the stripped line |
| Tables.NormalizeName | parse_csvTest.py:26 | a renamed column name contains no space |
| Tables.NormalizeNameIdempotent | parse_csvTest.py:26 | renaming a renamed name changes nothing |
| Tables.NormalizedTrimmed | parse_csvTest.py:26 | a renamed name neither starts nor ends with whitespace |
| Tables.NormalizedLowered | parse_csvTest.py:26 | a renamed name is already lower-case |
| Tables.RenameHeader | parse_csvTest.py:26 | the header keeps its length and order; each name is the old one stripped, lowered and with ' ' turned to '_' |
| Tables.RenameHeaderIdempotent | parse_csvTest.py:26 | renaming the header twice gives the same header as once |
| Tables.CleanColumns | parse_csvTest.py:23-27 | rows untouched; header of the same length with each name renamed and no name containing a space |
| Tables.NullIfToken | parse_csvTest.py:33 | a cell becomes null exactly when it is null or a text equal to one of the tokens (whole cell, case-sensitive); otherwise it is unchanged |
| Tables.MapCells | parse_csvTest.py:33 | `replace` on the whole table: header and shape kept, every cell passed through the per-cell function |
| Tables.MapNamed | parse_csvTest.py:43 | `df[col] = ...`: only the cells under columns of that name change, shape and header kept |
| Tables.Occurrences | parse_csvTest.py:42 | the name occurs in the header exactly when its count is not zero |
| Tables.OccurrencesTwice | parse_csvTest.py:26-43 | the count is at least two exactly when two different header positions hold the name |
| Tables.ConvertColumn | parse_csvTest.py:42-43 | an absent column is skipped or raises `KeyError` as the script chooses; a name held by two or more columns raises; a name held once gives the table with `f` applied to exactly the cells of that column and every other cell unchanged; it fails exactly in those two raising cases |
| Tables.ConvertColumnEstablishes | parse_csvTest.py:41-98 | after a conversion whose results all satisfy a property, every cell of that column satisfies it |
| Tables.ConvertColumnKeeps | parse_csvTest.py:41-98 | a conversion leaves every other column's cells as they were |
| Tables.MapNamedKeeps | parse_csv.py:57 | rewriting one named column leaves the cells of every other name as they were |
| Tables.ConvertColumnRectangular | parse_csvTest.py:41-98 | a successful conversion keeps one cell per column in every row |
| Tables.MapNamedRectangular | parse_csv.py:57 | overwriting a column keeps one cell per column in every row |
| Tables.MapCellsRectangular | parsepro_csv.py:30 | a whole-table replace keeps one cell per column in every row |
| Tables.FillColumn | parse_csv.py:57 | `df[col].fillna(...)` raises exactly when the column is missing, and otherwise fills every column of that name |
| Tables.DropEmptyRows | parse_csvTest.py:103-105 | header kept, no row added; every kept row is an input row with a non-null cell, and every such input row is kept |
| Tables.DropEmptyRowsOrder | parse_csvTest.py:105 | the drop works block by block, so kept rows stay in their original order |
| Tables.DropEmptyRowsOne | parse_csvTest.py:105 | a single row is kept exactly when it holds a non-null cell |
| Tables.DropEmptyRowsIdempotent | parse_csvTest.py:105 | dropping twice is dropping once |
| Tables.DropEmptyRowsRectangular | parse_csvTest.py:105 | the drop keeps one cell per column in every row |
| Tables.DropEmptyRowsHolds | parse_csv.py:60 | a property of every cell of a column still holds after the drop |
| Tables.DropEmptyRowsKeepsAll | parse_csvTest.py:105 | when one column holds no null, no row is dropped |
| Tables.FullColumnKeepsRows | parsepro_csv.py:87-90 | when a named column holds no null, the drop returns the table unchanged |
| Seqs.Filter | parse_csvTest.py:105 | the kept elements are input elements satisfying the test; every input element satisfying it is kept |
| Seqs.FilterConcat | parse_csvTest.py:105 | filtering distributes over concatenation |
| Seqs.FilterKeepsAll | parse_csvTest.py:105 | when every element passes, nothing is removed |
| Seqs.FilterIdempotent | parse_csvTest.py:105 | filtering twice is filtering once |
| Numerals.ValueConcat | parse_csvTest.py:43 | the value of concatenated digits is the first value shifted by the second's length plus the second |
| Numerals.NatToString | parse_csvTest.py:43 | a non-empty digit string without a leading zero whose value is the number |
| Numerals.Digits | collect_errors.py:14 | a zero-padded digit string of the given width whose value is the number |
| Numerals.ParseInt | parse_csvTest.py:43 | a text is an integer exactly when, after an optional sign, it is one or more digits |
| Numerals.ParseIntText | parse_csvTest.py:43 | any sign ("", "-", "+") followed by a non-empty digit string, leading zeros included, reads as that value, negated after "-" |
| Numerals.ParseIntShape | parse_csvTest.py:43 | every text read as an integer is such a sign and digit string, and its value is the one they spell |
| Numerals.ParseIntExamples | parse_csvTest.py:43 | "007" is 7, "+5" is 5, "-12" is -12; "+", "1-2" and "+-1" are not integers |
| Numerals.ParseIntRoundTrip | parse_csvTest.py:43 | every integer's text parses back to it |
| Numerals.IndexOf | collect_errors.py:22 | the first position of the character, or the length when it does not occur |
| Numerals.ParseDecimal | parse_csvTest.py:68 | a decimal with a nonzero scale comes from a text with a point |
| Numerals.ParseDecimalText | parse_csvTest.py:68 | any sign, whole digits, an optional point and fraction digits, with one digit at least (so ".5" and "5." count), read as the decimal of all the digits with scale the number of fraction digits |
| Numerals.ParseDecimalShape | parse_csvTest.py:68 | every text read as a decimal is such a sign, digits, optional point and digits, and its value is the one they spell |
| Numerals.NotDecimals | parse_csvTest.py:68 | "1.2.3", "1-2", "+-1" and "." are not decimals |
| Numerals.ParseDecimalChars | parse_csvTest.py:68 | a text that parses as a number holds only a sign, digits and a point |
| Numerals.ParseDecimalPoint | parse_csvTest.py:67-68 | signed digits, a point and digits read as the exact decimal with that many fraction digits |
| Numerals.ParseDecimalWhole | parse_csvTest.py:68 | signed digits without a point read as a whole decimal |
| Numerals.ParsePointText | parse_csvTest.py:68 | whole digits, a point and a zero-padded fraction read as the decimal whose mantissa is whole × 10^scale + fraction |
| Numerals.ParseDecimalRoundTrip | parse_csvTest.py:68 | every exact decimal's text parses back to it, scale included |
| Calendar.DaysInMonth | parse_csv.py:40-44 | a month has between 28 and 31 days |
| Calendar.ParseIsoDate | parse_csv.py:40-44 | a date is read only from four year digits and '-', and only when it exists and fits a pandas timestamp |
| Calendar.ParseIsoDateFields | parse_csv.py:40-44 | four year digits, '-', one or two month digits, '-', one or two day digits read as the date they spell when it exists and fits a timestamp, and as nothing otherwise |
| Calendar.ParseIsoDateShape | parse_csv.py:40-44 | every text read as a date is four year digits, '-', a one- or two-digit month, '-', a one- or two-digit day, and gives the date those fields spell |
| Calendar.UnpaddedDate | parse_csv.py:40-44 | "2024-3-1" is the first of March 2024: month and day need no zero padding |
| Calendar.TrailingTextRejected | parse_csv.py:40-44 | "2024-03-11x" is not a date: nothing may follow the day |
| Calendar.FormatIsoDate | parse_csv.py:43 | a date's `YYYY-MM-DD` text has ten characters |
| Calendar.ParseIsoDateRoundTrip | parse_csv.py:40-44 | every timestamp date's `YYYY-MM-DD` text is read back as that date |
| Calendar.DayFirstRejected | parse_csv.py:40-44 | the day-first text `11/03/2024` is not a `%Y-%m-%d` date |
| Coercions.AsStr | parse_csvTest.py:82 | `astype(str)` keeps text and turns a null into "None" |
| Coercions.ToInteger | parse_csvTest.py:43 | the result is an integer or null; a text becomes its integer or null; a null stays null |
| Coercions.NumberCell | parse_csvTest.py:68 | a decimal exactly when the text parses as one, null otherwise |
| Coercions.CleanAmount | parse_csvTest.py:66-67 | the cleaned amount contains no ' ' and no ',' |
| Coercions.Amount | parse_csvTest.py:65-68 | the result is a decimal or null; anything that is not text becomes null |
| Coercions.AmountRejects | parse_csvTest.py:65-68 | an amount with a character such as '€', which the clean-up keeps and no number holds, becomes null |
| Coercions.RemoveGroupSpace | parse_csvTest.py:66 | the group space of "a b,f" is removed and nothing else |
| Coercions.ReplaceDecimalComma | parse_csvTest.py:67 | the comma between two digit runs becomes a point |
| Coercions.CleanAmountGrouped | parse_csvTest.py:66-67 | the clean-up turns "a b,f" with digit groups into "ab.f" |
| Coercions.AmountGrouped | parse_csvTest.py:65-68 | "a b,f" with digit groups becomes the exact decimal with digits a b f and scale \|f\| |
| Coercions.DateCell | parse_csvTest.py:50-62 | the result is a date or null; anything that is not text becomes null |
| Coercions.BoolCell | parse_csvTest.py:80-87 | a boolean exactly when the stripped, lowered `astype(str)` key is in the map, with the mapped value; null otherwise |
| Coercions.BoolKey | parse_csvTest.py:82-84 | the key is no longer than the cell's text, has no whitespace at either end and no capital letter |
| Coercions.OrFalse | parse_csv.py:57 | `fillna(False)`: never null; nulls become false and other cells stay |
| Coercions.NullKey | parse_csvTest.py:82-85 | a null is looked up under the key "none" |
| ParseCsvTest.NormalizeStrings | parse_csvTest.py:30-34 | header and shape kept; a cell becomes null exactly when it is "", "None", "NaN" or "nan", and every other cell is unchanged |
| ParseCsvTest.ConvertTypes | parse_csvTest.py:37-100 | succeeds exactly when none of the seven typed names picks several columns; then header and row count are kept; a failure is a repeated typed name |
| ParseCsvTest.Clean | parse_csvTest.py:116-119 | succeeds exactly when no typed name is repeated in the renamed header; then the header is the renamed one, no row is added and every row holds a value |
| ParseCsvTest.RenamedCollisionRaises | parse_csvTest.py:116-118 | two column names that the rename makes equal to a typed name make `main` raise |
| ParseCsvTest.ConvertTypesOnCopy | parse_csvTest.py:37-100 | overwriting the copy's columns one by one gives the conversion's result, failure included |
| ParseCsvTest.ConvertTypesTyped | parse_csvTest.py:37-100 | after the conversions each typed column holds only values of its type or nulls, never the original text |
| ParseCsvTest.ConvertTypesAbsent | parse_csvTest.py:42-98 | with none of the typed columns present the table is returned unchanged |
| ParseCsvTest.ActifKeys | parse_csvTest.py:72-79 | the `actif` map has exactly the keys oui, non, true, false, 1, 0, with oui/true/1 true |
| ParseCsvTest.ActifTokensExact | parse_csvTest.py:71-87 | oui/true/1 give true, non/false/0 give false, every other key gives null |
| ParseCsvTest.ActifPadded | parse_csvTest.py:80-87 | " Oui " is true: the key is stripped and lowered first |
| ParseCsvTest.ActifUnknown | parse_csvTest.py:80-87 | "yes" and null give null |
| ParseCsvTest.NewsletterTokensExact | parse_csvTest.py:90-98 | only oui/true give true and only non/false give false; every other key gives null |
| ParseCsvTest.NewsletterKeys | parse_csvTest.py:96 | the `newsletter_ok` map has exactly the keys oui, true, non, false, with oui/true true |
| ParseCsvTest.NewsletterExamples | parse_csvTest.py:90-98 | "1" and "0" give null, "FALSE" gives false |
| ParseCsvTest.AmountEuroIsNull | parse_csvTest.py:65-68 | "12 €" becomes null because '€' is not removed |
| Frames.Frame.constructor | parse_csvTest.py:39 | `df.copy()`: a new frame whose view is the given table |
| Frames.Frame.RenameColumns | parsepro_csv.py:20 | the frame's header becomes the renamed header, rows untouched |
| Frames.Frame.Replace | parsepro_csv.py:30 | the frame holds the table with every cell replaced |
| Frames.Frame.Overwrite | parsepro_csv.py:36 | the frame holds the table with the named column's cells rewritten, cell by cell |
| Frames.Frame.Convert | parsepro_csv.py:35-36 | on success the frame holds the converted table; on failure it reports the failure and is unchanged |
| Frames.Frame.Fill | parse_csv.py:57 | on success the frame holds the filled table; a missing column is reported and the frame is unchanged |
| Frames.Frame.DropEmptyRows | parsepro_csv.py:90 | the frame holds the table without its all-null rows |
| ParseproCsv.ReplaceMissing | parsepro_csv.py:23-30 | a cell becomes null exactly when it is one of the ten tokens; no remaining text cell equals a token; everything else unchanged |
| ParseproCsv.MissingTokensCaseSensitive | parsepro_csv.py:23-30 | "NaN" and "NONE" stay text, "---" becomes null |
| ParseproCsv.CleanAmountPro | parsepro_csv.py:53-61 | the cleaned amount contains no '€', no U+00A0, no ' ' and no ',' |
| ParseproCsv.CleanAmountProSteps | parsepro_csv.py:53-61 | the clean-up is strip, then the three removals, then ',' → '.' |
| ParseproCsv.CleanAmountProGrouped | parsepro_csv.py:53-61 | "a b,f €" (for instance "1 000,50 €") cleans to "ab.f" ("1000.50") |
| ParseproCsv.CleanAmountProKeeps | parsepro_csv.py:53-61 | a character other than '€', U+00A0, ' ' and ',' survives the clean-up |
| ParseproCsv.AmountPro | parsepro_csv.py:53-63 | a decimal exactly when the cleaned `astype(str)` text parses; null otherwise |
| ParseproCsv.AmountProGrouped | parsepro_csv.py:52-63 | "a b,f €" becomes the exact decimal with digits a b f and scale \|f\| |
| ParseproCsv.AmountProRejects | parsepro_csv.py:53-63 | a character the clean-up keeps and no number holds makes the amount null |
| ParseproCsv.AmountProNull | parsepro_csv.py:53-63 | a null cell, seen as "None", becomes null |
| ParseproCsv.BoolMappingKeys | parsepro_csv.py:66-75 | `bool_mapping` has exactly the eight keys, with oui/yes/true/1 true |
| ParseproCsv.ActifTokensExact | parsepro_csv.py:77-80 | oui/yes/true/1 give true, non/no/false/0 give false, every other key null |
| ParseproCsv.Newsletter | parsepro_csv.py:82-87 | never null; true exactly when the key maps to true |
| ParseproCsv.NewsletterTokensExact | parsepro_csv.py:82-87 | oui/yes/true/1 give true and every other value, null included, gives false |
| ParseproCsv.ConvertEachStops | parsepro_csv.py:43-49 | once a conversion in the date loop raises, the later names do not change the outcome |
| ParseproCsv.ConvertEach | parsepro_csv.py:43-49 | the loop succeeds exactly when none of its names picks several columns; then header and row count are kept; a failure is one of its names repeated |
| ParseproCsv.ConvertTypes | parsepro_csv.py:34-87 | succeeds exactly when none of the seven typed names is repeated; then header and row count are kept; a failure is a repeated typed name |
| ParseproCsv.Clean | parsepro_csv.py:19-90 | succeeds exactly when no typed name is repeated in the renamed header; then the header is the renamed one, no row is added and every row holds a value |
| ParseproCsv.ConvertDates | parsepro_csv.py:43-49 | the loop over the two date columns leaves the frame holding the converted table, or reports the failure |
| ParseproCsv.ConvertTypesOn | parsepro_csv.py:34-87 | the typed conversions on the frame match the conversion function, failure included |
| ParseproCsv.ConvertEachShape | parsepro_csv.py:43-49 | the date loop keeps header, row count and rectangularity |
| ParseproCsv.ConvertTypesShape | parsepro_csv.py:34-87 | the conversions keep header, row count and rectangularity |
| ParseproCsv.NewsletterHasNoNull | parsepro_csv.py:82-87 | after the conversions `newsletter_ok` holds no null |
| ParseproCsv.NoRowDropped | parsepro_csv.py:82-90 | with `newsletter_ok` present, the final drop removes no row |
| ParseproCsv.ConversionsAbsent | parsepro_csv.py:35-87 | with no typed column present, only the rename, the replace and the drop act |
| ParseproCsv.ConvertTypesAbsent | parsepro_csv.py:35-87 | each guarded conversion is skipped when its column is absent, so the table passes unchanged |
| ParseproCsv.Run | parsepro_csv.py:19-90 | the script's steps on the frame give the cleaning function's table, or its failure |
| ParseCsv.BoolWord | parse_csv.py:29-34 | a text exactly "true"/"oui"/"false"/"non" becomes the mapped boolean; every other cell is unchanged |
| ParseCsv.BoolWordExamples | parse_csv.py:29-34 | "oui" and "non" become booleans; "Oui" and "TRUE" stay text |
| ParseCsv.MissingTokensExamples | parse_csv.py:21-27 | "none" and "---" survive, "N/A" becomes null |
| ParseCsv.IsoDate | parse_csv.py:40-51 | a date exactly when the cell is text in `%Y-%m-%d` form; null otherwise |
| ParseCsv.DayFirstDateIsNull | parse_csv.py:40-51 | "11/03/2024" becomes null |
| ParseCsv.IsoDateReadsBack | parse_csv.py:40-51 | a timestamp date's `YYYY-MM-DD` text becomes that date |
| ParseCsv.BooleanAmountIsNull | parse_csv.py:53-55 | a boolean left in the currency column by the replace reaches the conversion only when the column also holds a non-boolean value, and it becomes null |
| ParseCsv.ConvertAmount | parse_csv.py:53-55 | the currency conversion fails exactly when the name is missing or repeated or the column holds only booleans and nulls with one boolean at least; on success header and row count are kept and the column holds only decimals or nulls |
| ParseCsv.RefusedAfterConvert | parse_csv.py:37-55 | converting another column leaves the currency column booleans-and-nulls only exactly when it was before |
| ParseCsv.PreparedRefused | parse_csv.py:21-34 | a currency column of missing tokens and boolean words, with one word at least, holds only booleans and nulls after the two replacements |
| ParseCsv.BooleanCurrencyRaises | parse_csv.py:21-55 | a currency column holding only missing tokens and boolean words, with one word at least, makes the script raise |
| ParseCsv.BoolWordsKeys | parse_csv.py:29-34 | the replace has exactly the keys true, false, oui, non, and none of them is a missing-value token |
| ParseCsv.Prepare | parse_csv.py:19-34 | header renamed and shape kept; afterwards no text cell is a missing token or a boolean word, every remaining text is the original cell, and each boolean word has become its boolean |
| ParseCsv.ConvertTypes | parse_csv.py:37-55 | succeeds exactly when each of the five converted names picks one column and the currency column is not booleans-and-nulls only; on success header and row count are kept; a failure names one of the five converted columns, and only the currency column can fail for not being text |
| ParseCsv.Clean | parse_csv.py:19-60 | succeeds exactly when the renamed header picks each converted column once, holds `newsletter_ok`, and the prepared currency column is not booleans-and-nulls only; on success the header is the renamed one, no row is added and every row holds a value; a failure names one of the six required columns |
| ParseCsv.ConvertTypesShape | parse_csv.py:37-55 | the conversions keep header, row count and rectangularity |
| ParseCsv.ConvertTypesTyped | parse_csv.py:37-55 | after the conversions `id_client` and `age` hold integers or nulls, both date columns dates or nulls, and the currency column decimals or nulls |
| ParseCsv.CleanTyped | parse_csv.py:37-60 | the script's result keeps those five column types through the fill and the drop, and `newsletter_ok` holds no null |
| ParseCsv.FillAndDropTyped | parse_csv.py:57-60 | `fillna(False)` on `newsletter_ok` and `dropna(how="all")` keep the five converted column types and leave `newsletter_ok` without null |
| ParseCsv.MissingColumnRaises | parse_csv.py:37-57 | a missing required column makes the script fail instead of skipping |
| ParseCsv.ConvertTypesNeedsColumns | parse_csv.py:37-55 | the conversions succeed only when all five converted columns are present |
| ParseCsv.NoRowDropped | parse_csv.py:57-60 | after the fill `newsletter_ok` holds no null and the drop removes no row |
| ParseCsv.FillKeepsRows | parse_csv.py:57-60 | after `fillna(False)` on `newsletter_ok`, `dropna(how="all")` removes no row of a rectangular table |
| ParseCsv.ConvertTypesOn | parse_csv.py:37-55 | the conversions on the frame match the conversion function, failure included |
| ParseCsv.Run | parse_csv.py:19-60 | the script's steps on the frame give the cleaning function's table, or its failure |
| Csvt.NullEmpty | csvt.py:15 | only a cell exactly "" (or a null) becomes null; all other cells unchanged |
| Csvt.Clean | csvt.py:14-16 | the header is the renamed one, no row is added and every row holds a value |
| Csvt.Run | csvt.py:14-16 | the frame's header is renamed in place and the returned table is the cleaned one |
| Csvt.NullEmptyRows | csvt.py:15 | the replace on rows: shape kept, every cell passed through `NullEmpty` |
| Csvt.NullEmptyRowHasValue | csvt.py:15-16 | a row keeps a value after the replace exactly when it held a field that was neither null nor empty |
| Csvt.ReplacedRowHasValue | csvt.py:15-16 | a replaced row has a value exactly when the original held a non-empty field |
| Csvt.NullEmptyRowsCons | csvt.py:15 | the replace works row by row |
| Csvt.DropAfterReplace | csvt.py:15-16 | replacing then dropping equals dropping the rows with no field, then replacing |
| Csvt.ReplaceIsRowWise | csvt.py:15 | the table replace and the row-wise replace agree |
| Csvt.CleanKeepsFieldRows | csvt.py:14-16 | the result has the renamed header and exactly the rows that held a non-empty field, in order, empty cells nulled |
| Csvt.CleanIsClean | csvt.py:15-16 | the result holds no empty text and no row without a value |
| Csvt.CleanIdempotent | csvt.py:14-16 | cleaning a cleaned table changes nothing |
| CollectErrors.Lines | collect_errors.py:22 | lines are non-empty; '\n' occurs only as a line's last character, and every line but the last ends with it |
| CollectErrors.JoinLines | collect_errors.py:22 | joining the lines gives the text back |
| CollectErrors.Glob | collect_errors.py:20 | the scanned files are listing entries whose names end in ".log", and every such entry is scanned |
| CollectErrors.HasMarker | collect_errors.py:23 | a line with the marker has at least the five characters of "ERROR" |
| CollectErrors.Entry | collect_errors.py:24 | the entry starts with "[", the file name and "] ", and the rest, no longer than the line, has no whitespace at either end |
| CollectErrors.FileEntries | collect_errors.py:22-24 | no more entries than lines, each starting with the bracketed file name |
| CollectErrors.Entries | collect_errors.py:20-24 | every entry starts with the bracketed name of one of the scanned files |
| CollectErrors.Collect | collect_errors.py:17-24 | the nested loops produce the entries of the globbed files in visiting order, then line order |
| CollectErrors.AppendEntries | collect_errors.py:22-24 | the loop over one file's lines extends the list by exactly that file's entries |
| CollectErrors.EntriesOf | collect_errors.py:24 | one entry per matching line |
| CollectErrors.FileEntriesAreFiltered | collect_errors.py:22-24 | a file's entries are exactly its lines containing "ERROR", each formatted, in order |
| CollectErrors.EntriesCount | collect_errors.py:20-24 | the number of entries equals the number of matching lines |
| CollectErrors.EntryShape | collect_errors.py:23-24 | an entry is "[" name "] " then the stripped line, which still contains "ERROR" and has no whitespace at either end |
| CollectErrors.LowerCaseIsNoMarker | collect_errors.py:23 | the match is case-sensitive: "error\n" yields no entry |
| CollectErrors.ReportTextAppend | collect_errors.py:31-32 | writing one more entry appends it and a '\n' |
| CollectErrors.ReportText | collect_errors.py:30-32 | the report is empty exactly when there is no entry, and otherwise ends with '\n' |
| CollectErrors.WriteReport | collect_errors.py:30-32 | the writing loop produces each entry followed by '\n', in list order |
| CollectErrors.IndexOfAfter | collect_errors.py:22 | the first '\n' of a text is found after any prefix that has none |
| CollectErrors.ReportLines | collect_errors.py:30-32 | when no entry holds '\n', the report reads back as one line per entry |
| CollectErrors.EntryHasNoNewline | collect_errors.py:24 | an entry holds '\n' only if the file name does |
| CollectErrors.FileEntriesHaveNoNewline | collect_errors.py:22-24 | a file's entries hold no '\n' when its name holds none |
| CollectErrors.EntriesHaveNoNewline | collect_errors.py:20-24 | the collected entries hold no '\n' when no file name does |
| CollectErrors.ReportHasLinePerEntry | collect_errors.py:17-32 | the report of the collected entries has exactly one line per entry |
| CollectErrors.Timestamp | collect_errors.py:14 | `%Y%m%d-%H%M%S` is fifteen characters with '-' in the middle |
| CollectErrors.TimestampReadsBack | collect_errors.py:14 | the timestamp's digit fields read back as the clock's year, month, day, hour, minute and second |
| CollectErrors.ReportName | collect_errors.py:14-15 | the name is 26 characters: "errors_", the timestamp, ".log" |
| CollectErrors.ReportNameInjective | collect_errors.py:14-15 | two clock readings give the same report name only when they are equal |

## Left out

- Reading and writing the files. This covers `read_csv` (separator, quoting, encoding, `on_bad_lines="skip"`), `to_csv`, `mkdir`, the missing-input `SystemExit` in `main` and every `print`. These are I/O; the model starts from the table `read_csv` returns.
- Row labels (the pandas index) are not modelled. The scripts write without the index.
- `pd.to_datetime(..., dayfirst=True)` is the parameter `dayFirst`, a reader from text to an optional date. Its format heuristics are pandas library behaviour. The reader is applied cell by cell, while pandas infers one format for the whole column from its first non-null value and then reads every cell with it; the model does not capture that column-wide choice. Times of day are not represented: a date cell holds a calendar date only.
- Numerals.ParseDecimal: it does not accept the exponents, the "inf"/"nan" words or the surrounding whitespace that `pd.to_numeric` reads. Such texts become null in the model. Numbers are exact decimals, not float64, so rounding is not modelled.
- Coercions.ToInteger: a fractional text such as "3.5" becomes null instead of making the `Int64` cast raise, and "3.0" becomes null instead of 3. Values beyond 64 bits are not cut off.
- Coercions.ToInteger: the text is read by the integer grammar only. `pd.to_numeric` also reads surrounding whitespace (" 12 " is 12) and exponents ("1e3" is 1000); the model gives null for such texts.
- Coercions.ToInteger: in `parse_csv.py` a cell already replaced by a boolean is taken as 1 or 0. This is what `to_numeric` does with a Python bool; the mixed bool-and-text column case is assumed to behave the same.
- ParseCsv.IsoDate: a boolean left in a date column by the replace is treated as a non-text cell and becomes null. What `to_datetime` with a format does with a Python bool is pandas behaviour that is not modelled.
- Coercions.AsStr: decimal and date cells never reach `astype(str)` in these scripts. They are given the empty text rather than pandas' rendering.
- PyText.Lower: only ASCII letters are lowered. The Unicode case mapping of `str.lower` is not modelled.
- Calendar.ParseIsoDate: it does not model the whitespace and time-of-day suffixes that pandas' ISO reader may tolerate, the words "today" and "now" that pandas reads as the current timestamp, or the space-padded day ("2024-03- 5") that pandas' fallback format matcher accepts. The model gives null for all of these.
- `glob("*.log")` is a filter on a listing given as input, in the listing's order. Directory order, hidden-file rules and directories whose names end in ".log" are file-system behaviour.
- `open(...)` is the file's decoded text with newlines already translated to '\n'. `shutil.move` to the archive directory and `datetime.now()` are left out as file-system and clock effects; the clock's fields are an input to the name formatter.
- CollectErrors.ReportName: it requires a valid clock reading with a four-digit year, the only kind `datetime.now()` gives here. `strftime`'s output for years below 1000 is not modelled.
