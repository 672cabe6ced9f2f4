# Scalable-AI-Data-Cleaning: a Dafny model of the cleaners

This project models the cleaning core of Scalable-AI-Data-Cleaning, a small pandas
pipeline that prepares two tabular datasets for machine learning. It covers:

- `normalize_columns`, the shared label normaliser: strip, lowercase, spaces to underscores;
- `clean_telco_data`, the telecom churn cleaner: blanks to missing, numeric
  `totalcharges`, a drop of rows with no charge, Yes/No and service encodings,
  and a boolean `seniorcitizen`;
- `clean_ecommerce_data`, the e-commerce cleaner: a drop of all-missing rows, date
  and number casts, a drop of rows missing a critical field, the `transaction_date`
  cast, and the `age` and `purchase_amount` filters with their printed counts.

## Layout

- `cells.dfy` (`Cells`): cells and the missing marker, errors, and the two pandas
  coercions, `pd.to_numeric` and `pd.to_datetime`. Both take `errors="coerce"` and
  use string parsers passed in as a parameter.
- `tables.dfy` (`Tables`):
  - a frame's value, `Table`: labels, columns and a row count;
  - row masks and `Filter`, which keeps the rows a mask lists, in order;
  - the column and cell maps;
  - the laws that relate them;
  - the mutable `Frame` class, whose methods update a frame in place (`df[c] = …`)
    or return a new frame (`df[mask]`, `df.dropna(…)`, `df.replace(…)`).
- `base_cleaner.dfy` (`BaseCleaner`): the label normaliser, and the `NormalizeColumns`
  method, which changes the labels of the frame it is given.
- `telco_churn_cleaner.dfy` and `ecommerce_cleaner.dfy`. Each cleaner has three layers:
  - a method over `Frame` objects that follows the source statement by statement;
  - a function giving the run stage by stage (`CleanTelco`, `CleanEcommerce`), which
    the method is proved to agree with;
  - a one-pass description: every cell cast by its column's name, then one row
    selection.

  A lemma proves the stage-by-stage function equal to the one-pass description,
  counts included, and the promised properties are proved about that description.

A run's outcome is a value: the cleaned table or the error raised, and the counts the
function prints (`None` for a check that was skipped or not reached).

Behaviours of the code worth knowing, which the model keeps:

- **The telco drop on `totalcharges` has no presence check**
  (src/cleaners/telco_churn_cleaner.py:44-46). Without that column, pandas raises
  `KeyError`, so `CleanTelco` returns `Fail(KeyError("totalcharges"))`.
- **The telco blank replacement covers the whole frame**
  (src/cleaners/telco_churn_cleaner.py:37), not only `totalcharges`.
- **Normalised labels can keep interior whitespace.** Only spaces become underscores
  (src/cleaners/base_cleaner.py:11), so an interior tab or newline stays.
- **The ecommerce comparisons can raise.** `between(10, 100)` and `> 0`
  (src/cleaners/ecommerce_cleaner.py:67,73) raise `TypeError` when a cell is a
  string or a timestamp, and the model returns the matching `Fail(TypeError(…))`.
- **`astype(bool)` makes a missing `seniorcitizen` true**
  (src/cleaners/telco_churn_cleaner.py:73). A blank one becomes missing first, so it
  is true as well.

## Model

| member | source | states |
|---|---|---|
| Cells.ToNumeric | src/cleaners/telco_churn_cleaner.py:41 | the result is a number or missing; it is missing exactly when the cell was missing or a string that does not parse; a parsed string gives its number; a number is kept |
| Cells.ToDatetime | src/cleaners/ecommerce_cleaner.py:45 | the result is an instant or missing; it is missing exactly when the cell was missing, a boolean, an unparsable string, or a number whose nanosecond count, cut toward zero, falls outside the 64-bit range; a parsed string gives its instant; a number in range gives its count cut toward zero; an instant is kept |
| Cells.TruncateTowardZero | src/cleaners/ecommerce_cleaner.py:45 | a float's cut to whole nanoseconds: the integer is at most the real and within 1 of it for a non-negative real, at least the real and within 1 of it for a negative one |
| Cells.ToDatetimeNumberBounds | src/cleaners/ecommerce_cleaner.py:45 | 1e19 nanoseconds is out of range and becomes missing; -1.5 becomes -1, not -2; 2^63 - 1 is the last instant |
| Tables.KeptIndices | src/cleaners/ecommerce_cleaner.py:41-73 | the rows a mask keeps are listed in strictly increasing order, each one a row where the mask holds, and every such row is listed |
| Tables.EnumerationUnique | src/cleaners/ecommerce_cleaner.py:41-73 | a mask has exactly one increasing listing of its rows |
| Tables.KeptIndicesMember | src/cleaners/ecommerce_cleaner.py:41-73 | a row is kept exactly when the mask holds at that row |
| Tables.KeptIndicesMonotone | src/cleaners/ecommerce_cleaner.py:66-74 | a mask that holds at no more rows than another keeps no more rows, so no printed count is negative |
| Tables.Filter | src/cleaners/telco_churn_cleaner.py:45 | a row filter keeps the labels; the new row count is the number of rows kept and at most the old one; each cell is the original cell, in the same column and in the row it came from |
| Tables.MapColumn | src/cleaners/ecommerce_cleaner.py:44-51 | definition of `df[name] = f(df[name])`, whose laws are proved in `Tables.MapColumnFilter` and `EcommerceCleaner.CastColumnsAt`: it maps the cells of the columns labelled `name` and leaves the labels, the row count and every other column unchanged |
| Tables.MapCells | src/cleaners/telco_churn_cleaner.py:37 | definition of a whole-frame replacement, used in `TelcoChurnCleaner.TelcoPreparedAt`: it maps every cell and keeps the labels and the row count |
| Tables.NotAllMissing | src/cleaners/ecommerce_cleaner.py:41 | definition of the `dropna(how="all")` mask, proved to select in `EcommerceCleaner.AllMissingRowsDropped`: it keeps a row exactly when one of its cells is present |
| Tables.NoneMissingIn | src/cleaners/ecommerce_cleaner.py:56 | definition of the `dropna(subset=names)` mask, proved to select in `EcommerceCleaner.CriticalDrop`: it keeps a row exactly when none of its cells in those columns is missing |
| Tables.ColumnMask | src/cleaners/ecommerce_cleaner.py:67 | definition of the mask of a boolean selection, proved to select in `EcommerceCleaner.ValidateMeaning`: a boolean selection on one column keeps a row exactly when its cells in that column pass the test |
| Tables.FilterTwice | src/cleaners/ecommerce_cleaner.py:56-73 | filtering a filtered table is one filter by the conjunction of the masks |
| Tables.FilterAll | src/cleaners/ecommerce_cleaner.py:55-56 | a mask that holds everywhere leaves the table unchanged |
| Tables.MapColumnFilter | src/cleaners/ecommerce_cleaner.py:56-62 | a column map and a row filter commute |
| Tables.FilterThenColumnMask | src/cleaners/ecommerce_cleaner.py:65-74 | a column test applied after a filter is one filter by the conjunction |
| Tables.FilterThenNoneMissing | src/cleaners/ecommerce_cleaner.py:41-56 | a subset drop applied after a filter is one filter by the conjunction |
| Tables.ColumnHasFilter | src/cleaners/ecommerce_cleaner.py:65-74 | a filtered column holds a bad cell exactly when a kept row of the original does |
| Tables.FilterKeepsColumnTest | src/cleaners/ecommerce_cleaner.py:67-73 | a later row selection keeps a column test that every cell of the column passed, so the amount check keeps ages in range |
| Tables.Frame.Assign | src/cleaners/telco_churn_cleaner.py:55 | a column assignment updates the frame in place to the column map of its old value |
| Tables.Frame.Replace | src/cleaners/telco_churn_cleaner.py:37 | `df.replace` gives a new frame holding every cell mapped |
| Tables.Frame.Select | src/cleaners/telco_churn_cleaner.py:45 | a row selection gives a new frame holding the filtered value |
| BaseCleaner.Strip | src/cleaners/base_cleaner.py:9 | `str.strip()` returns the part between the leading and the trailing whitespace; only whitespace is dropped; the result is empty or has no whitespace at either end; it is empty exactly when the label was blank |
| BaseCleaner.NormalizeLabelShape | src/cleaners/base_cleaner.py:9-11 | `NormalizeLabel`, the label transform: a normalised label has no space and no upper-case letter and no whitespace at either end; it is as long as the stripped label, and it is empty exactly when the label was blank |
| BaseCleaner.LowerChars | src/cleaners/base_cleaner.py:10 | `Lower`, `str.lower()`: no upper-case letter is left; each becomes the lower-case letter at the same place in the alphabet; every other character stays |
| BaseCleaner.ReplaceSpacesChars | src/cleaners/base_cleaner.py:11 | `ReplaceSpaces`, `str.replace(" ", "_")`: no space is left; each becomes an underscore; every other character stays |
| BaseCleaner.NormalizeLabelChars | src/cleaners/base_cleaner.py:9-11 | `NormalizeLabel`, character by character on the stripped label: a space becomes `_`, an upper-case letter its lower-case letter, and every other character, an interior tab included, stays in place |
| BaseCleaner.NormalizeLabels | src/cleaners/base_cleaner.py:7-12 | definition of the label list `normalize_columns` assigns, proved idempotent in `BaseCleaner.NormalizeLabelsIdempotent`: there are as many labels as before, each normalised at its own position, so the order of the columns is kept |
| BaseCleaner.NormalizeLabelIdempotent | src/cleaners/base_cleaner.py:7-12 | normalising a normalised label changes nothing |
| BaseCleaner.NormalizeLabelsIdempotent | src/cleaners/base_cleaner.py:7-12 | normalising all the labels twice gives the labels of one normalisation |
| BaseCleaner.NormalizeColumns | src/cleaners/base_cleaner.py:6-13 | the frame given is changed in place and returned; its labels are normalised; its columns and row count are untouched |
| TelcoChurnCleaner.BlankToMissing | src/cleaners/telco_churn_cleaner.py:37 | a cell becomes missing exactly when it was missing or a string matching `^\s*$` (`Cells.IsBlank`: every character whitespace, the empty string included); every other cell is kept |
| TelcoChurnCleaner.YesNo | src/cleaners/telco_churn_cleaner.py:55 | "Yes" maps to 1 and "No" to 0, in both directions; every other value, missing included, maps to missing |
| TelcoChurnCleaner.RewriteNoServiceMeaning | src/cleaners/telco_churn_cleaner.py:65-68 | `RewriteNoService`, the whole-value replacement: the result is "No" exactly for "No", "No internet service" and "No phone service"; every other cell is kept |
| TelcoChurnCleaner.ServiceYesNo | src/cleaners/telco_churn_cleaner.py:65-69 | the rewrite and then the map: "Yes" gives 1; "No", "No internet service" and "No phone service" give 0; everything else gives missing |
| TelcoChurnCleaner.SeniorToBool | src/cleaners/telco_churn_cleaner.py:73 | `astype(bool)` always gives a boolean; it is false exactly for the number 0, false and the empty string |
| TelcoChurnCleaner.BlankThenYesNo | src/cleaners/telco_churn_cleaner.py:37-69 | no dictionary key is blank, so the blank replacement changes no Yes/No or service result |
| TelcoChurnCleaner.BlankThenSenior | src/cleaners/telco_churn_cleaner.py:37-73 | after the blank replacement, `seniorcitizen` is false exactly for the number 0 and false |
| TelcoChurnCleaner.EncodeColumns | src/cleaners/telco_churn_cleaner.py:53-55 | the Yes/No loop keeps the labels and the row count |
| TelcoChurnCleaner.EncodeColumnsAt | src/cleaners/telco_churn_cleaner.py:49-55 | over a list without repetitions, the loop maps each cell of a listed, present column once and leaves every other cell alone |
| TelcoChurnCleaner.EncodeServiceColumns | src/cleaners/telco_churn_cleaner.py:63-69 | the service loop keeps the labels and the row count |
| TelcoChurnCleaner.EncodeServiceColumnsAt | src/cleaners/telco_churn_cleaner.py:58-69 | the service loop rewrites and then maps each cell of a listed, present column, and leaves every other cell alone |
| TelcoChurnCleaner.TelcoPrepared | src/cleaners/telco_churn_cleaner.py:34-41 | normalising, blank replacement and the cast keep the row count; the labels become the normalised ones |
| TelcoChurnCleaner.TelcoEncodeSteps | src/cleaners/telco_churn_cleaner.py:49-73 | the encodings after the drop keep the labels and the row count |
| TelcoChurnCleaner.DropAndEncode | src/cleaners/telco_churn_cleaner.py:44-73 | the steps from the drop on fail exactly when there is no `totalcharges` column |
| TelcoChurnCleaner.CleanTelco | src/cleaners/telco_churn_cleaner.py:34-75 | the run fails exactly when no label normalises to `totalcharges`; it then fails with KeyError and prints nothing; a successful run prints a count |
| TelcoChurnCleaner.LabelGroupsDisjoint | src/cleaners/telco_churn_cleaner.py:49-62 | the Yes/No list, the service list, `totalcharges` and `seniorcitizen` are disjoint, and neither list repeats a name |
| TelcoChurnCleaner.TelcoCellByGroup | src/cleaners/telco_churn_cleaner.py:37-73 | each cell is encoded by its column's group, after the blank replacement; cells outside the groups are only blank-replaced |
| TelcoChurnCleaner.TelcoEncoded | src/cleaners/telco_churn_cleaner.py:37-73 | definition of the one-pass encoding, proved equal to the steps in `TelcoChurnCleaner.CleanTelcoIsReference`: it keeps the row count, normalises the labels and encodes every cell by its column's name |
| TelcoChurnCleaner.TelcoPreparedAt | src/cleaners/telco_churn_cleaner.py:34-41 | before the drop, each cell is the blank-replaced cell, cast when its column is `totalcharges` |
| TelcoChurnCleaner.TelcoEncodeStepsAt | src/cleaners/telco_churn_cleaner.py:49-73 | after the drop, each cell is encoded by its column's name |
| TelcoChurnCleaner.TelcoMaskPrepared | src/cleaners/telco_churn_cleaner.py:40-45 | the drop reads the same `totalcharges` cells in the prepared table and in the one-pass table |
| TelcoChurnCleaner.EncodedAfterDrop | src/cleaners/telco_churn_cleaner.py:44-73 | with a `totalcharges` column, the encodings applied after the drop give the one-pass table |
| TelcoChurnCleaner.CleanTelcoIsReference | src/cleaners/telco_churn_cleaner.py:34-75 | the run is the one-pass description: without a `totalcharges` column a KeyError and no count; otherwise the one-pass table and the difference in row counts |
| TelcoChurnCleaner.TelcoWithoutTotalChargesFails | src/cleaners/telco_churn_cleaner.py:44-46 | without a `totalcharges` column, the run raises KeyError and prints nothing, whatever else the table holds |
| TelcoChurnCleaner.TelcoOutIsReference | src/cleaners/telco_churn_cleaner.py:44-75 | a successful run returns the one-pass table |
| TelcoChurnCleaner.TelcoMaskMeaning | src/cleaners/telco_churn_cleaner.py:37-45 | a row is kept exactly when each of its `totalcharges` cells, blank-replaced, parses as a number |
| TelcoChurnCleaner.TelcoOutAt | src/cleaners/telco_churn_cleaner.py:34-75 | on success the labels are the normalised ones; each output cell is the encoding of the input cell in the same column and in the row it came from |
| TelcoChurnCleaner.TelcoRowsKept | src/cleaners/telco_churn_cleaner.py:44-46 | the rows kept are, in their original order, exactly those whose `totalcharges` parses; the row count never grows; the printed count is the number of rows dropped |
| TelcoChurnCleaner.TelcoTotalChargesNumeric | src/cleaners/telco_churn_cleaner.py:40-45 | every `totalcharges` cell of the output is a number |
| TelcoChurnCleaner.TelcoYesNoCell | src/cleaners/telco_churn_cleaner.py:49-55 | a Yes/No column holds 1 exactly where the input said "Yes", 0 exactly where it said "No", and missing everywhere else |
| TelcoChurnCleaner.TelcoServiceCell | src/cleaners/telco_churn_cleaner.py:58-69 | a service column holds 1 exactly for "Yes", 0 exactly for "No" and the two "No … service" values, and missing otherwise |
| TelcoChurnCleaner.TelcoSeniorCitizenCell | src/cleaners/telco_churn_cleaner.py:72-73 | `seniorcitizen` becomes boolean; it is false exactly where the input held 0 or false |
| TelcoChurnCleaner.ExampleLabels | src/cleaners/base_cleaner.py:7-12 | `TotalCharges` and `Churn` normalise to `totalcharges` and `churn` |
| TelcoChurnCleaner.TelcoExample | src/cleaners/telco_churn_cleaner.py:34-75 | a two-row table with a blank charge in one row: one row is left, with its charge parsed and `churn` "No" encoded as 0, and 1 is printed |
| TelcoChurnCleaner.EncodeYesNoColumns | src/cleaners/telco_churn_cleaner.py:53-55 | the loop over the Yes/No list, in place, equals the column-list encoding |
| TelcoChurnCleaner.EncodeServices | src/cleaners/telco_churn_cleaner.py:63-69 | the loop over the service list, in place, equals the service encoding |
| TelcoChurnCleaner.EncodeFrame | src/cleaners/telco_churn_cleaner.py:49-73 | the three encodings change the frame in place to the encoded value |
| TelcoChurnCleaner.PrepareFrame | src/cleaners/telco_churn_cleaner.py:34-41 | the argument's labels are normalised in place; a new frame holds the prepared table |
| TelcoChurnCleaner.DropAndEncodeFrame | src/cleaners/telco_churn_cleaner.py:44-73 | the drop and the encodings on a new frame raise, print and return what `DropAndEncode` says; the argument frame is not changed, and a returned frame is new |
| TelcoChurnCleaner.CleanTelcoData | src/cleaners/telco_churn_cleaner.py:20-75 | the method raises, prints and returns what `CleanTelco` says; a returned frame is new, not the argument; it leaves the argument frame with normalised labels and its cells unchanged |
| EcommerceCleaner.Compared | src/cleaners/ecommerce_cleaner.py:67-73 | a cell compares as a number exactly when it is a number or a boolean; a number compares as itself |
| EcommerceCleaner.InAgeRangeMeaning | src/cleaners/ecommerce_cleaner.py:67 | `InAgeRange`, `between(10, 100)` on a cell: an age passes exactly when it is a number in [10, 100], both ends included; a missing age never passes |
| EcommerceCleaner.PositiveAmountMeaning | src/cleaners/ecommerce_cleaner.py:73 | `PositiveAmount`, `> 0` on a cell: an amount passes exactly when it is a positive number or the boolean true; a missing amount never passes |
| EcommerceCleaner.CriticalFields | src/cleaners/ecommerce_cleaner.py:54-55 | the critical fields are those of `order_date` and `price` that are present; the list is empty exactly when neither is present |
| EcommerceCleaner.CastColumns | src/cleaners/ecommerce_cleaner.py:44-51 | the casts keep the labels and the row count |
| EcommerceCleaner.CastColumnsAt | src/cleaners/ecommerce_cleaner.py:44-51 | each `order_date` cell becomes its parsed date, each `price` and `quantity` cell its parsed number, missing when it does not parse; the other columns are untouched |
| EcommerceCleaner.CastTransactionDate | src/cleaners/ecommerce_cleaner.py:58-62 | the `transaction_date` cast never changes the row count, so the missing values it makes are not dropped |
| EcommerceCleaner.EcomPrepared | src/cleaners/ecommerce_cleaner.py:38-51 | the label normalisation, the all-missing drop and the casts never add a row |
| EcommerceCleaner.EcomChecked | src/cleaners/ecommerce_cleaner.py:53-62 | the critical drop and the `transaction_date` cast keep the labels and never add a row |
| EcommerceCleaner.AllMissingRowsDropped | src/cleaners/ecommerce_cleaner.py:41 | the first drop keeps, in order, exactly the rows with some cell present |
| EcommerceCleaner.CriticalDrop | src/cleaners/ecommerce_cleaner.py:54-56 | after the critical drop every `order_date` and `price` cell is present; with neither column the drop removes nothing |
| EcommerceCleaner.ValidateMeaning | src/cleaners/ecommerce_cleaner.py:64-74 | `Validate`, one validation step raises TypeError exactly when its column is present and holds a string or an instant; a skipped step changes and prints nothing; otherwise every row left passes the test and the printed count is the number of rows removed |
| EcommerceCleaner.EcomEncoded | src/cleaners/ecommerce_cleaner.py:44-62 | definition of the one-pass cast, proved equal to the steps in `EcommerceCleaner.CleanEcommerceIsReference`: it keeps the row count, normalises the labels and casts every cell by its column's name |
| EcommerceCleaner.CastColumnsFilter | src/cleaners/ecommerce_cleaner.py:44-56 | the three casts commute with a row filter |
| EcommerceCleaner.CastTransactionDateFilter | src/cleaners/ecommerce_cleaner.py:56-62 | the `transaction_date` cast commutes with a row filter |
| EcommerceCleaner.CastsEncode | src/cleaners/ecommerce_cleaner.py:44-62 | the casts, done in two groups, are the one-pass cast |
| EcommerceCleaner.CriticalBeforeDateCast | src/cleaners/ecommerce_cleaner.py:56-62 | the critical drop reads the same cells before and after the `transaction_date` cast |
| EcommerceCleaner.CheckedIsFilter | src/cleaners/ecommerce_cleaner.py:38-62 | after the two drops and the casts, the table is the one-pass cast filtered by one mask |
| EcommerceCleaner.ValidationsMeaning | src/cleaners/ecommerce_cleaner.py:64-74 | `Validations`, the two checks in sequence: the run raises exactly when the age check raises or, after it passes, the amount check does; after an age error the amount check is not reached; a table that comes through keeps its labels, holds only ages in [10, 100] and positive amounts, a count is printed for each present column, and the counts add up to the rows removed |
| EcommerceCleaner.ValidationsFailures | src/cleaners/ecommerce_cleaner.py:64-74 | the two checks raise exactly when the age check raises or, after it passes, the amount check does; after an age error nothing is printed |
| EcommerceCleaner.ValidationsPassed | src/cleaners/ecommerce_cleaner.py:64-74 | a table that comes through both checks keeps its labels, holds only ages in range and positive amounts, and the printed counts add up to the rows removed |
| EcommerceCleaner.ValidateFiltered | src/cleaners/ecommerce_cleaner.py:64-74 | a validation step on a filtered table raises, or gives the table filtered by the refined mask together with the difference in row counts |
| EcommerceCleaner.ValidationsFiltered | src/cleaners/ecommerce_cleaner.py:64-74 | both validation steps on a filtered table are the one-selection description, errors and counts included |
| EcommerceCleaner.CleanEcommerceIsReference | src/cleaners/ecommerce_cleaner.py:22-76 | `CleanEcommerce`, the run stage by stage, equals the one-pass description: its result, its error and both printed counts |
| EcommerceCleaner.CriticalMaskMeaning | src/cleaners/ecommerce_cleaner.py:41-56 | a row survives the two drops exactly when one of its cells is present and each `order_date` parses as a date and each `price` as a number |
| EcommerceCleaner.AgeMaskMeaning | src/cleaners/ecommerce_cleaner.py:41-67 | a row survives the age check exactly when it survives the drops and every `age` in it is in [10, 100] |
| EcommerceCleaner.EcomMaskMeaning | src/cleaners/ecommerce_cleaner.py:41-73 | a row survives the run exactly when it survives the age check and every `purchase_amount` in it is positive |
| EcommerceCleaner.EcomOutIsReference | src/cleaners/ecommerce_cleaner.py:38-76 | a successful run returns the one-pass cast filtered by the one-pass mask |
| EcommerceCleaner.EcomOutAt | src/cleaners/ecommerce_cleaner.py:38-76 | on success the labels are the normalised ones; each output cell is the cast of the input cell in the same column and in the row it came from |
| EcommerceCleaner.EcomRowsKept | src/cleaners/ecommerce_cleaner.py:41-76 | the output rows are, in their original order, exactly the input rows that survive the drops and both checks; the row count never grows |
| EcommerceCleaner.RaisesOn | src/cleaners/ecommerce_cleaner.py:64-74 | a check raises on a filtered table exactly when a kept row holds a string or an instant in its column |
| EcommerceCleaner.AgeRaisesMeaning | src/cleaners/ecommerce_cleaner.py:65-67 | the age check raises exactly when a row that survives the drops holds a string or an instant as its age |
| EcommerceCleaner.AmountRaisesMeaning | src/cleaners/ecommerce_cleaner.py:71-73 | the amount check raises exactly when a row that passes the age check holds a string or an instant as its amount |
| EcommerceCleaner.ReferenceFailures | src/cleaners/ecommerce_cleaner.py:64-74 | in the one-pass description, which check raises and when |
| EcommerceCleaner.EcomFailures | src/cleaners/ecommerce_cleaner.py:64-74 | the run fails with TypeError on `age` exactly when the age check raises, and on `purchase_amount` exactly when only the amount check does; nothing else fails, and with neither column the run succeeds |
| EcommerceCleaner.CountsFrom | src/cleaners/ecommerce_cleaner.py:64-74 | on any starting rows, each check's count is the rows before it minus the rows after it; the counts appear exactly when the check ran without raising; the row counts only go down |
| EcommerceCleaner.ReferenceCounts | src/cleaners/ecommerce_cleaner.py:64-74 | in the one-pass description, the counts against the rows each mask keeps |
| EcommerceCleaner.EcomCounts | src/cleaners/ecommerce_cleaner.py:64-74 | the age count is the rows left by the drops minus those left by the age check, and the amount count is those minus the rows left at the end; each is printed exactly when its column is present and its check was reached and did not raise; the row counts only go down |
| EcommerceCleaner.ReferenceCells | src/cleaners/ecommerce_cleaner.py:44-73 | the one-pass output's cells by column: ages in range, amounts positive, dates and prices present |
| EcommerceCleaner.KeptCellKinds | src/cleaners/ecommerce_cleaner.py:44-73 | the cast of a cell in a row that passes the drops and both checks: an age in range, a positive amount, a date and a price present |
| EcommerceCleaner.EcomAgeInRange | src/cleaners/ecommerce_cleaner.py:65-67 | every output `age` is a number in [10, 100] |
| EcommerceCleaner.EcomAmountPositive | src/cleaners/ecommerce_cleaner.py:71-73 | every output `purchase_amount` is a positive number or the boolean true |
| EcommerceCleaner.EcomCastCells | src/cleaners/ecommerce_cleaner.py:44-62 | every output `order_date` is an instant and every `price` a number; `quantity` and `transaction_date` are a number or an instant, or missing |
| EcommerceCleaner.ExampleAgeLabels | src/cleaners/base_cleaner.py:7-12 | `Age` normalises to `age` |
| EcommerceCleaner.EcomAgeExample | src/cleaners/ecommerce_cleaner.py:38-76 | ages 5, 50 and 150 leave only the row of 50; the age check prints 2 and the amount check prints nothing |
| EcommerceCleaner.CastFrame | src/cleaners/ecommerce_cleaner.py:44-51 | the three casts change the frame in place to the cast value |
| EcommerceCleaner.PrepareEcomFrame | src/cleaners/ecommerce_cleaner.py:38-51 | the argument's labels are normalised in place; a new frame holds the rows not all missing, cast |
| EcommerceCleaner.CheckFrame | src/cleaners/ecommerce_cleaner.py:53-62 | a new frame holds the critical drop, with `transaction_date` cast |
| EcommerceCleaner.ValidateFrame | src/cleaners/ecommerce_cleaner.py:64-74 | the frame step raises, prints and keeps what `Validate` says; a returned frame is the argument, when the check is skipped, or a new one |
| EcommerceCleaner.CleanEcommerceData | src/cleaners/ecommerce_cleaner.py:22-76 | the method raises, prints both counts and returns what `CleanEcommerce` says; a returned frame is new, not the argument; it leaves the argument frame with normalised labels and its cells unchanged |

## Left out

- The `main` functions of both cleaners are not modelled. They read and write CSV
  files, create directories and print paths, which is all I/O.
- `profile_dataframe` is not modelled: it only prints a report. The loader, the
  benchmarks and the timing helpers are not part of this model either.
- The `print` calls are not modelled as output. The counts they print are returned
  as values (`removed`, `ageRemoved`, `amountRemoved`).
- The parsers behind `pd.to_numeric` and `pd.to_datetime`, applied to a string, are
  parameters (`Cells.Parsers`): which strings parse is left open.
- Cells.ToDatetime: parses each string on its own with one fixed parser, shared by
  `order_date` and `transaction_date`. Pandas 2 instead infers one format from the
  first string in the column and, with `errors="coerce"`, makes strings in any other
  format missing. Whether a date parses then depends on the other cells of its
  column and, for `transaction_date`, on which rows the critical drop left.
  The model does not capture that. The facts that rest on cell-by-cell parsing are
  `EcommerceCleaner.CastTransactionDateFilter`, the one-pass description and the
  row characterisations built on it.
- Floating point is not modelled: numbers are reals. `pd.to_datetime` on a number
  cuts it toward zero to whole nanoseconds and makes it missing outside the 64-bit
  range, but the rounding of a large float before that cut is not modelled.
- Whitespace is ASCII only, in `str.strip`, `str.isspace` and the regex `^\s*$`:
  Unicode spaces are not whitespace here. `str.lower` lowercases ASCII letters only.
- Dtypes are not modelled. A column's type is the kinds of its cells: a comparison
  raises when some cell is a string or an instant. Pandas decides by the column's
  dtype, which the model does not hold. For the same reason `pd.to_numeric` turns a
  boolean into 1 or 0 here, although pandas returns a column of booleans only as it is.
- Duplicate labels are treated column by column: a test or a drop on a name applies
  to every column of that name. Pandas then works on a frame, not on a series,
  and can behave differently.
- The pandas index, copy-versus-view warnings and the memory layout are left out.
  Frames are objects whose cells are values, so no two frames share cells.
- The Yes/No encodings give the numbers 1 and 0 (`Num(1.0)`, `Num(0.0)`). The
  pandas integer dtype that holds them is not modelled.
