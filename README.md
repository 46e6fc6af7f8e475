# Loan-payments cleaning and profiling, modelled in Dafny

This project models the two in-memory components of the loan-payments
analysis: the **transformer** (`DataTransform` in `data_transformer.py`),
which rewrites named columns of a pandas DataFrame into dates, fractions,
amounts and categories; and the **profiler** (`DataFrameInfo` in
`dataframe_info.py`), which reports null counts, unique counts and
per-column summaries.

Files:

- `frames.dfy` (module `Frames`): the table. A `Frame` has column names in order,
  a column per name (a dtype and its cells) and a row count. `Table` is
  the subset of well-formed frames. `DataFrame` is a mutable frame
  (a class) with `Copy` (`df.copy()`) and `Set` (`df[col] = ...`).
- `parsing.dfy` (module `Parsing`): the string work done before a value becomes a
  number. `ParseFloat` is Python's `float()` on a decimal literal.
  `RStrip` is `str.rstrip(ch)`. `RemoveAll` is `re.sub('[\$,]', '', s)`.
- `data_transformer.dfy` (module `DataTransform`): the four column lists as
  written, and the four rules as values of `Rule`.
  - `ConvertColumn` is what one rule does to one column.
  - `Apply` is the loop over a list, as a specification. It records the
    table so far and the error that stopped the loop, if any. Columns
    converted before an exception stay converted, as with the source's
    in-place assignments.
  - `RunRule` is that loop on a mutable `DataFrame`.
  - `ConvertDates`, `ConvertPercentages`, `ConvertCurrencies` and
    `ConvertCategorical` are the four static methods.
  - `TransformData` is `transform_data`: the four rules, on a copy.
- `dataframe_info.dfy` (module `Profiler`): null counting, `nunique`,
  `value_counts().head()`, round-half-even to two decimals, and the class
  `DataFrameInfo`. Its table is fixed at construction. Its three queries are
  functions of that table.

Points where the code's behaviour is easy to misread; the model follows the code:

- Running the percentage rule again does not divide by 100 a second time.
  After the first run the column holds floats, and `.str` on a float column
  raises `AttributeError`. The model returns that error
  (`PercentagesTwiceFails`, `PercentagesTwice`).
- The currency rule is idempotent in the code. The regex replacement leaves
  non-text values alone, and `astype(float)` of floats changes nothing
  (`RulesIdempotent`).
- In a text column, `.str.rstrip('%')` turns a value that is not a string
  into NaN. The model does the same (`StripPercent`). Whether `.str` is
  available at all is decided by the values as well as the dtype: an object
  or category column whose values are all numbers, or all dates, raises
  `AttributeError` (`StrAccessor`, `PercentagesOnNumbers`).
- `astype(float)` raises `TypeError` on a date inside an object column, not
  only on a datetime column (`CurrenciesOnDate`).
- `pd.to_datetime` reads the empty string and the spellings of NaT and NaN
  as missing dates, without parsing them (`DatesOnNaTText`).

## Model

| member | source | states |
|---|---|---|
| Frames.Replace | data_transformer.py:24 | assigning a present column keeps the names, their order, the row count and every other column; the assigned column holds the new value |
| Frames.DataFrame.Copy | data_transformer.py:103 | the copy is a new object holding the same table, and the original is not touched |
| Frames.IsNumeric | dataframe_info.py:82 | the dtypes `np.issubdtype(dtype, np.number)` accepts: int64 and float64, never datetime64 |
| Frames.HoldsText | dataframe_info.py:89 | the object and category dtypes, which `select_dtypes(include=['object', 'category'])` keeps; none of them is numeric or datetime |
| Frames.DataFrame.Has | data_transformer.py:23 | `col in df.columns` holds exactly when the table has that column |
| Frames.DataFrame.Get | data_transformer.py:40 | `df[col]` is the table's column of that name, with one cell per row |
| Frames.DataFrame.Set | data_transformer.py:40 | `df[col] = ...` on a present column changes the frame to `Replace` of its old value |
| Parsing.ParseFloat | data_transformer.py:40 | the model's `float()` accepts only plain decimal literals: a leading sign, digits and a '.', with at least one digit; only a leading '-' gives a negative number |
| Parsing.UnsignedShape | data_transformer.py:65 | an accepted unsigned literal is made of digits and a '.', has a digit, and is negative only when marked so |
| Parsing.ParseDigits | data_transformer.py:40 | a plain digit string reads as the number it spells |
| Parsing.ParseShowFixed | data_transformer.py:65 | reading back any number written with k decimals, negative ones included, gives exactly n / 10^k |
| Parsing.ParsePercentExample | data_transformer.py:31 | "12.34" reads as 12.34 |
| Parsing.ParseCurrencyExample | data_transformer.py:47 | "1234.56" reads as 1234.56 |
| Parsing.RStrip | data_transformer.py:40 | the result is a prefix of the input; everything removed is the stripped character; the result does not end with it |
| Parsing.RStripAllTrailing | data_transformer.py:40 | any number of trailing '%' signs is stripped to the same result |
| Parsing.RStripUnique | data_transformer.py:40 | the strip result is the unique prefix that leaves only stripped characters behind and does not itself end in one |
| Parsing.RemoveAll | data_transformer.py:65 | no removed character remains, and the result is no longer than the input |
| Parsing.RemoveAllKeeps | data_transformer.py:65 | every character outside the class is kept as many times as it occurs |
| Parsing.RemoveAllConcat | data_transformer.py:65 | removal works piece by piece, so the kept characters keep their order |
| Parsing.RemoveAllClean | data_transformer.py:65 | a value with no '$' or ',' is unchanged |
| DataTransform.StripPercent | data_transformer.py:40 | `.str.rstrip('%')` keeps text as text and turns anything else into NaN; the result is a prefix of the text, what was cut off is all '%', and the result does not end in '%' |
| DataTransform.StripCurrency | data_transformer.py:65 | the regex replacement touches only text, never lengthens it, and leaves no '$' or ',' in it |
| DataTransform.AsFloat | data_transformer.py:65 | `astype(float)` gives a float or NaN; it raises exactly on a date or on text `float()` rejects; numbers and NaN pass through |
| DataTransform.NaTText | data_transformer.py:24 | the strings `pd.to_datetime` reads as NaT without parsing: "", "NaT", "nat", "NAT", "nan", "NaN", "NAN"; none has a digit |
| DataTransform.NeedsParse | data_transformer.py:24 | the values `pd.to_datetime` has to parse: numbers and text other than the NaT spellings; a string that reads as a number is always parsed |
| DataTransform.StrAccessor | data_transformer.py:40 | whether `.str` is available: an object or category column whose non-missing values are not all numbers nor all dates; a column holding a string, or only missing values, always has it |
| DataTransform.ConvertCell | data_transformer.py:24 | every rule keeps NaN as NaN; a date conversion gives a date or NaT, the two float conversions a float or NaN, and the categorical one the value itself |
| DataTransform.ConvertCells | data_transformer.py:24 | a column converts exactly when each of its values does; each converted value is that value's conversion; a failure reports the first row that does not convert |
| DataTransform.ConvertColumn | data_transformer.py:40 | a converted column has the rule's dtype and the same length, and every missing value stays missing; an error carries the column, as the model's record of where it stopped |
| DataTransform.DatesColumn | data_transformer.py:24 | `pd.to_datetime` succeeds exactly when the parser accepts every number and every text that is not a spelling of NaT; dates pass through; missing values, the empty string and the NaT spellings become NaT |
| DataTransform.PercentagesColumn | data_transformer.py:40 | succeeds exactly when `.str` is available (an object or category column whose values are not all numbers nor all dates) and each string, stripped of its trailing '%', reads as a number; that number is divided by 100; a non-string value becomes NaN |
| DataTransform.PercentagesOnNumbers | data_transformer.py:40 | an object column holding only numbers makes `.str` raise `AttributeError` |
| DataTransform.CurrenciesOnDate | data_transformer.py:65 | an object column holding a date makes `astype(float)` raise `TypeError` |
| DataTransform.DatesOnNaTText | data_transformer.py:24 | "" and "NaT" become NaT whatever the parser says |
| DataTransform.PercentageOfText | data_transformer.py:40 | a text value whose stripped form reads as x becomes x / 100 |
| DataTransform.CurrencyOfText | data_transformer.py:65 | a text value whose cleaned form reads as x becomes x |
| DataTransform.CurrenciesColumn | data_transformer.py:65 | succeeds exactly when the column is not datetime, holds no date, and each string with '$' and ',' removed reads as a number; numbers and NaN pass through |
| DataTransform.CategoricalColumn | data_transformer.py:89 | `astype('category')` always succeeds, keeps every value and so the set of labels; only the dtype changes |
| DataTransform.PercentageExample | data_transformer.py:31 | "12.34%" becomes 0.1234 |
| DataTransform.CurrencyExample | data_transformer.py:47 | "$1,234.56" becomes 1234.56 |
| DataTransform.StripPercentExample | data_transformer.py:40 | stripping '%' from "12.34%" leaves "12.34" |
| DataTransform.StripCurrencyExample | data_transformer.py:65 | removing '$' and ',' from "$1,234.56" leaves "1234.56" |
| DataTransform.ConvertColumnTwice | data_transformer.py:89 | converting an already converted column again gives the same column, for dates, currencies and categories |
| DataTransform.PercentagesTwiceFails | data_transformer.py:40 | the percentage rule on its own output raises `AttributeError` instead of dividing again |
| DataTransform.Step | data_transformer.py:23-24 | one loop turn: an absent column changes nothing; an error leaves the table as it was and records the column; otherwise that column becomes its conversion and no other column changes |
| DataTransform.Apply | data_transformer.py:22-24 | the loop keeps the names, their order, the row count and every unlisted column |
| DataTransform.ApplyStops | data_transformer.py:38-40 | after the first error the rest of the list is not looked at |
| DataTransform.ApplyColumnwise | data_transformer.py:63-65 | over a list without repeats, the loop succeeds exactly when every listed present column converts; then each holds its conversion; an error comes from a listed present column; absent columns never fail |
| DataTransform.ApplyNext | data_transformer.py:22-24 | one more name is one more loop turn on the table so far |
| DataTransform.ApplyConverts | data_transformer.py:63-65 | after a run without error, a listed present column holds its conversion |
| DataTransform.ListsDistinct | data_transformer.py:14-85 | none of the four lists repeats a name |
| DataTransform.ListsDisjoint | data_transformer.py:14-85 | no name is on two lists |
| DataTransform.CurrencyListAsWritten | data_transformer.py:49-61 | the currency list as written has ten entries, one of them the joined name "funded_amountfunded_amount_inv", and neither funded-amount name |
| DataTransform.FundedAmountsUntouched | data_transformer.py:63-65 | so the currency rule never changes either funded-amount column |
| DataTransform.IntendedCurrencyList | data_transformer.py:49-61 | the corrected list has eleven distinct names, both funded-amount columns among them |
| DataTransform.IntendedListDisjoint | data_transformer.py:49-61 | the corrected list shares no name with the date, percentage and categorical lists |
| DataTransform.IntendedListConvertsFundedAmounts | data_transformer.py:63-65 | with the corrected list, a run without error converts both funded-amount columns when present |
| DataTransform.ConvertsBoth | data_transformer.py:63-65 | over a list without repeats, a run without error converts any two listed present columns |
| DataTransform.ApplyTwice | data_transformer.py:22-24 | dates, currencies and categories over any list without repeats: a second run on the output changes nothing |
| DataTransform.RulesIdempotent | data_transformer.py:87-89 | the date, currency and categorical rules are idempotent on their own lists, and the categorical rule never fails |
| DataTransform.PercentagesTwice | data_transformer.py:38-40 | a second percentage run over a list fails as soon as one listed column is present |
| DataTransform.Pipeline | data_transformer.py:106-109 | four stages in the order dates, percentages, currencies, categories, each over its own rule's list |
| DataTransform.RunStages | data_transformer.py:106-109 | running the stages in order keeps the names, the row count and the set of columns |
| DataTransform.RunFourStages | data_transformer.py:106-109 | four stages run one after the other, each on the previous table, stopping at the first error |
| DataTransform.PipelineSteps | data_transformer.py:106-109 | `transform_data` runs dates, then percentages, then currencies, then categories |
| DataTransform.TransformSpec | data_transformer.py:93-112 | on success the table keeps its names, row count and columns |
| DataTransform.OwnerOfLast | data_transformer.py:106-109 | a column listed by the last stage is not listed by any earlier stage |
| DataTransform.StagesColumnwise | data_transformer.py:103-112 | stages with distinct, disjoint lists work column by column: the run succeeds exactly when each column converts under the rule that lists it, and then each column is its own conversion, whatever the stage order |
| DataTransform.PipelineSeparate | data_transformer.py:106-109 | the four stages have distinct, pairwise disjoint lists |
| DataTransform.TransformColumnwise | data_transformer.py:93-112 | `transform_data` succeeds exactly when every column converts under the one rule that lists it, and each column then holds its own conversion |
| DataTransform.RunStep | data_transformer.py:23-24 | one turn on the mutable frame: the frame becomes what `Step` says |
| DataTransform.RunRule | data_transformer.py:22-24 | the loop on a mutable frame leaves it as `Apply` says, including the columns converted before an error |
| DataTransform.ConvertDates | data_transformer.py:10-26 | `convert_dates` on a frame is `Apply` of the date rule over the date list |
| DataTransform.ConvertPercentages | data_transformer.py:28-42 | `convert_percentages` is `Apply` of the percentage rule over its list |
| DataTransform.ConvertCurrencies | data_transformer.py:44-67 | `convert_currencies` is `Apply` of the currency rule over the list as written |
| DataTransform.ConvertCategorical | data_transformer.py:69-91 | `convert_categorical` is `Apply` of the categorical rule over its list |
| DataTransform.TransformData | data_transformer.py:93-112 | `transform_data` never changes the frame passed in; it returns a fresh frame holding `TransformSpec`, or the error of the first failing rule |
| Profiler.CountMissing | dataframe_info.py:42 | a null count is at most the row count |
| Profiler.CountMissingOccurrences | dataframe_info.py:79 | the row-by-row null sum is the number of missing cells; it is zero exactly when nothing is missing |
| Profiler.NUnique | dataframe_info.py:80 | `nunique()` is zero exactly when every cell is missing |
| Profiler.NUniqueBound | dataframe_info.py:80 | distinct non-missing values plus missing cells never exceed the row count |
| Profiler.Uniques | dataframe_info.py:61 | the distinct non-missing values, each once |
| Profiler.DistinctCard | dataframe_info.py:61-63 | a list without repeats has as many entries as its set of values |
| Profiler.UniquesCount | dataframe_info.py:63 | there are exactly `nunique` of them |
| Profiler.Counts | dataframe_info.py:90 | each distinct non-missing value with its number of occurrences |
| Profiler.MaxIndex | dataframe_info.py:90 | the first entry with the largest count |
| Profiler.RemoveAt | dataframe_info.py:90 | removing one entry keeps every other entry |
| Profiler.RemoveAtDistinct | dataframe_info.py:90 | removing one entry from entries with distinct values leaves distinct values, none equal to the removed one |
| Profiler.ConsDistinct | dataframe_info.py:90 | putting a new value in front of distinct values keeps them distinct |
| Profiler.Top | dataframe_info.py:90 | the head has min(k, n) entries, all taken from the counts |
| Profiler.TopSorted | dataframe_info.py:90 | the counts in the head never increase |
| Profiler.TopComplete | dataframe_info.py:90 | no value left out has a larger count than the last one shown |
| Profiler.TopDistinct | dataframe_info.py:90 | the head shows each value at most once |
| Profiler.ValueCountsHead | dataframe_info.py:90 | at most five entries, each a non-missing value of the column with its number of occurrences |
| Profiler.ValueCountsHeadSpec | dataframe_info.py:90 | `value_counts().head()` has min(5, nunique) entries, sorted by count, distinct, each non-missing with its true count |
| Profiler.ValueCountsHeadComplete | dataframe_info.py:90 | a value with more occurrences than the last one shown is shown |
| Profiler.RoundHalfEven | dataframe_info.py:47 | the nearest integer, and the even one on a tie |
| Profiler.Round2 | dataframe_info.py:47 | a whole number of hundredths, at most half a hundredth away, and the even hundredth on a tie |
| Profiler.Percentage | dataframe_info.py:43-47 | the null percentage is a whole number of hundredths within half a hundredth of the exact share times 100, and the even hundredth on a tie |
| Profiler.PercentageBounds | dataframe_info.py:43-47 | a null percentage is between 0 and 100 |
| Profiler.PercentageExamples | dataframe_info.py:43-47 | 3 of 10 rows gives 30.0; 1 of 3 gives 33.33; 1 of 800 gives 0.12, the even neighbour of 0.125 |
| Profiler.Position | dataframe_info.py:50 | the index of a column name in the column order |
| Profiler.Select | dataframe_info.py:50 | the boolean mask keeps exactly the columns in the set, and never more columns than there are |
| Profiler.SelectAll | dataframe_info.py:63 | with every column selected, the report covers all columns in order |
| Profiler.PositionsAfterHead | dataframe_info.py:50 | in a list without repeats, a later name is one place further on than in the tail |
| Profiler.SelectOrdered | dataframe_info.py:60 | the kept columns follow the table's column order, so none repeats |
| Profiler.TextColumns | dataframe_info.py:60 | `select_dtypes(include=['object', 'category'])`: exactly the table's object and category columns |
| Profiler.NullReport | dataframe_info.py:45-48 | one row per column, in order, with its null count and its rounded percentage |
| Profiler.UniqueReport | dataframe_info.py:65 | one row per column, in order, with its `nunique` |
| Profiler.Keys | dataframe_info.py:77 | the keys of a summary, in insertion order |
| Profiler.SummaryOf | dataframe_info.py:77-90 | a summary holds the dtype, the null count and the unique count, then five statistics exactly for a numeric column and at most five value counts exactly for a text or category column |
| Profiler.SummaryKeys | dataframe_info.py:77-90 | a summary always starts with dtype, null count and unique count; it has the five statistics exactly for numeric columns and the value counts exactly for text and category columns |
| Profiler.NotFound | dataframe_info.py:75 | the error message contains the column name (after "Column '") |
| Profiler.IntendedColumnSummary | dataframe_info.py:74-92 | corrected summary: it fails exactly for an absent column, with the not-found message; otherwise it is the column's summary, whatever the dtype |
| Profiler.DataFrameInfo.constructor | dataframe_info.py:9-16 | the profiler holds the table it was given; the field is constant, so no query can change it |
| Profiler.DataFrameInfo.GetNullInfo | dataframe_info.py:38-50 | the rows are exactly the columns with at least one null, in column order; each row has its null count and its percentage, rounded half to even; a table without rows gives an empty report |
| Profiler.DataFrameInfo.GetUniqueCounts | dataframe_info.py:52-65 | with `categoricalOnly` the rows are exactly the object and category columns, otherwise every column in order; each row has its `nunique` |
| Profiler.DataFrameInfo.GetColumnSummary | dataframe_info.py:67-92 | as written: an absent column raises `ValueError` with the not-found message; a category column raises `TypeError` at the numeric-dtype test; any other column gets its summary |
| Profiler.SummaryVersionsDiffer | dataframe_info.py:82 | the summary as written and the corrected one agree except on category columns; there the one as written fails and the corrected one has value counts |

## Left out

- `db_utils.py` is not part of this model. It holds credentials, the database connection and file I/O.
- `get_basic_info`, `get_statistical_summary` and `get_correlation_matrix` are left out. They print, or compute floating-point statistics.
- Profiler.SummaryKeys: the values of mean, median, std, min and max are not modelled. They are floating-point statistics; only the presence of their keys is.
- Parsing.ParseFloat: only plain decimal literals are read. Python's `float()` also accepts exponents ("1e5"), surrounding whitespace (" 5", "5 "), `inf`/`nan` and underscores ("1_000"), so a value such as "5 %" converts in the source and fails in the model.
- Parsing.ParseShowFixed: `float()` is modelled on exact decimals. It does not model binary floating-point rounding, exponents, `inf`/`nan`, underscores or surrounding whitespace, which Python also accepts.
- Profiler.Round2: rounds the exact value half to even. pandas rounds a binary float, which can differ from the exact decimal on some ties.
- DataTransform.DatesColumn: `pd.to_datetime` format inference is not modelled. A caller supplies the per-value parser (`DateParser`); missing values, dates, the empty string and the NaT spellings never reach it. Whitespace around a NaT spelling is not modelled.
- Profiler.Top: ties in count are ordered by first appearance. pandas does not promise an order for ties.
- Profiler.DataFrameInfo.constructor: the profiler keeps a table value. Python keeps a reference to a mutable DataFrame, so changes made to that frame later would show up in later queries; the model does not capture that aliasing.
- DataTransform.PercentagesColumn: `Missing` stands for NaN, None and NaT alike. pandas tells them apart when it checks `.str`: an object column whose only non-missing values are NaT is inferred as datetime and raises `AttributeError`, where the model converts it to a NaN column.
- DataTransform.ConvertColumn: values are Missing, text, numbers or dates. Other Python objects that an object column can hold (booleans, bytes, mixed integer kinds), and the category-specific behaviour of `.str` and `.replace` beyond what text columns do, are not modelled. For a category column, `.str` is judged on its values; categories declared but unused are not modelled.
- Column dtypes are limited to object, int64, float64, datetime64 and category. Other dtypes (bool, nullable integers, timedelta) are not modelled.
- The currency rule keeps the list as written, so its conversions leave both funded-amount columns alone (see Findings). The corrected list is defined; it is proved distinct, disjoint from the other lists, and to convert both funded-amount columns. `transform_data` still runs over the list as written.

## Findings

| source | as written | input that shows it | evidently intended | confidence | as-written member | corrected member |
|---|---|---|---|---|---|---|
| data_transformer.py:51-52 | a comma is missing after `'funded_amount'`, so Python joins the two literals into one name, `'funded_amountfunded_amount_inv'` | a table with a `funded_amount` column holding "$1,000.00": `convert_currencies` leaves it as text | eleven names, both `funded_amount` and `funded_amount_inv` converted to floats | high (not executed) | DataTransform.FundedAmountsUntouched | DataTransform.IntendedListConvertsFundedAmounts |
| dataframe_info.py:82 | `np.issubdtype` is given a pandas `CategoricalDtype`, which numpy cannot read as a dtype, so it raises `TypeError` | `get_column_summary('grade')` after `convert_categorical` | a category column gets dtype, null count, unique count and value counts | medium (not executed) | Profiler.DataFrameInfo.GetColumnSummary | Profiler.IntendedColumnSummary |
