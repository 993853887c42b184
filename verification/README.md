# Retail data cleaning, modelled in Dafny

This project models the `DataCleaning` class of a retail-sales ETL pipeline
(data_cleaning.py). The class holds the cleaning rules that run between
extraction and loading. Each cleaner takes one in-memory table (a pandas
DataFrame) and returns it cleaned, or raises and aborts.

- **`clean_user_data`** drops the `index` column. It then drops the users whose
  `first_name` is the sentinel `NULL` and those whose `user_uuid` is not 36
  characters long. In the rows that remain it replaces line breaks in addresses,
  parses two date columns and corrects the country code `GGB` to `GB`. Last, it
  normalises phone numbers in four stages: it deletes dialing codes and
  extensions, keeps only the digits, keeps the last ten digits of US numbers and
  puts a leading `0` on GB numbers.
- **`clean_card_data`** drops the cards whose number is `NULL` or whose expiry
  date is not five characters long. It then keeps only the digits of each card
  number and parses the payment date.
- **`clean_orders_data`** drops the `level_0` column.
- **`clean_products_data`** drops every product with a missing value. It then
  appends `*` to each weight (`convert_product_weights`).

A table is a `Tables.Table<C>`: an ordered list of distinct column names, plus
rows. Each row has a label (`key`) and a map from column name to cell. Two
pandas idioms are modelled literally:

- **Dropping rows by mask.** `df.drop(df[mask].index)` collects the labels of
  the masked rows, then removes every row that carries one of those labels.
- **Column assignment.** `df[c] = ...` runs column by column over the whole
  table.

Each cleaner also has a row-by-row reference (`Users.CleanUserRow`,
`Cards.CleanCardRow`). A lemma proves that the column-wise run agrees with it.

Every pandas exception becomes a `Results.CleanError` inside a `Result`:

- `MissingColumn`: KeyError or AttributeError.
- `UnparseableDate`: the date parser rejects a value.
- `EmptyPhone`: IndexError from reading the first character of an empty GB
  number.
- `MissingValue`: TypeError from appending to a missing weight.

The date parser `pd.to_datetime` is a parameter, `toDatetime: string -> Option<string>`.
`None` means it raises.

Row labels matter. If two rows share a label and only one of them is masked,
`drop` removes both. For that reason each selection is proved twice:

- For any labels, every survivor is an input row that passes the conditions.
- For unique labels, the survivors are exactly the passing rows, in their
  original order.

For any labels, the counting lemmas also state that a row is removed exactly when
some row sharing its label is masked, and is otherwise kept as often as it occurs.

## Model

| member | source | states |
|---|---|---|
| Tables.DropColumn | data_cleaning.py:7 | Dropping a column fails with `MissingColumn` exactly when it is absent; otherwise the result is well formed, the column set loses exactly that name, and every row keeps its label and all its other cells |
| Tables.DropColumnKeepsOrder | data_cleaning.py:67 | The remaining columns keep their relative order and the dropped name is gone |
| Tables.MarkedLabels | data_cleaning.py:9 | The labels collected from a mask are exactly the labels of the rows it selects |
| Tables.WithoutLabels | data_cleaning.py:9 | Removing rows by label keeps exactly the input rows whose label is not listed, in their original order: no survivor carries a listed label, and every input row with an unlisted label survives |
| Tables.WithoutLabelsCounts | data_cleaning.py:9 | Removing by label keeps each row with an unlisted label exactly as often as it occurs, duplicates included, and no row with a listed label |
| Tables.DropRowsWhere | data_cleaning.py:9-11 | Dropping the rows a mask selects fails exactly when the mask column is absent; otherwise the columns are unchanged, the result is well formed, and no survivor satisfies the mask, whatever the labels are |
| Tables.DropRowsWhereKeeps | data_cleaning.py:9-11 | Whatever the labels are, the survivors keep their input order, and a row survives whenever no row sharing its label is masked |
| Tables.DropRowsWhereCounts | data_cleaning.py:9-11 | Whatever the labels are, a row is kept exactly as often as it occurs when no row sharing its label is masked, and is removed when one is |
| Tables.DropRowsWhereIsFilter | data_cleaning.py:9-11 | With unique labels, dropping by mask equals the order-preserving filter that keeps the rows failing the mask |
| Tables.WithoutLabelsIsFilter | data_cleaning.py:35-37 | Removing by label equals the filter whenever a label is listed exactly when its own row satisfies the mask |
| Tables.KeepUnlessUnique | data_cleaning.py:9-11 | Filtering rows keeps the labels unique, so a second mask-drop is again a filter |
| Tables.UpdateColumn | data_cleaning.py:27-29 | A row-wise column assignment fails on a missing column, fails with the statement's error if any row fails, and otherwise rewrites only the target cell of each row |
| Tables.UpdateRows | data_cleaning.py:27-29 | The row-wise update succeeds exactly when every row succeeds, and then it changes only the target cell of each row |
| Tables.RunTable | data_cleaning.py:13-29 | A run of column statements keeps the columns, the row count and well-formedness |
| Tables.RunTableNeedsColumns | data_cleaning.py:13-29 | A run of column statements succeeds only if every column it reads or writes exists |
| Tables.StepIsRowwise | data_cleaning.py:27-29 | One column statement over the table succeeds exactly when it succeeds on every row alone, and then row `i` of the result is row `i` after the statement |
| Tables.RunRowConcat | data_cleaning.py:13-29 | Running two blocks of statements on a row equals running the first block and then the second on its result |
| Tables.RunTableIsRowwise | data_cleaning.py:13-29 | Running the statements column by column fails exactly when some row fails them one by one; otherwise row `i` of the result is row `i` run through every statement |
| Text.ReplaceNewlines | data_cleaning.py:13 | The address keeps its length, every line break becomes a space in place, every other character is unchanged, and no line break remains |
| Text.ReplaceNewlinesIdempotent | data_cleaning.py:13 | Replacing line breaks a second time changes nothing |
| Text.KeepDigits | data_cleaning.py:25 | Deleting non-digits leaves digits only and never lengthens the string |
| Text.KeepDigitsSubsequence | data_cleaning.py:25 | What is kept is the input with characters deleted, in its order |
| Text.KeepDigitsCounts | data_cleaning.py:41 | Every digit of the input survives, as many times as it occurs |
| Text.KeepDigitsConcat | data_cleaning.py:25 | Deleting non-digits distributes over concatenation |
| Text.KeepDigitsOfDigits | data_cleaning.py:25 | A string of digits is left unchanged, so the deletion is idempotent |
| Text.SliceFromEnd | data_cleaning.py:27 | A slice from the end of length `n` is a suffix of length `min(n, len)`, the whole string when it is no longer than `n`, and the whole string when `n` is 0 |
| Phone.WordRun | data_cleaning.py:23 | The greedy run of word characters is maximal: all characters in it are word characters and the next one is not |
| Phone.MatchLength | data_cleaning.py:23 | A match of the dialing-code-or-extension pattern lies within the string and can only start at `+` or `x` |
| Phone.StripDialCodesAndExtensions | data_cleaning.py:23 | Deleting dialing codes and extensions never lengthens the number |
| Phone.StripSubsequence | data_cleaning.py:23 | Stage 1 only deletes characters; the rest keeps its order |
| Phone.StripPlainPrefix | data_cleaning.py:23 | A prefix without `+` or `x` passes through stage 1 unchanged, and the rest is processed as if on its own |
| Phone.StripPlain | data_cleaning.py:23 | A number without `+` or `x` is unchanged by stage 1 |
| Phone.StripLeadingDialCode | data_cleaning.py:23 | A leading `+1`, `+44` or `+49` is deleted |
| Phone.StripExtension | data_cleaning.py:23 | `x` followed by word characters is deleted as a whole |
| Phone.WordRunPrefix | data_cleaning.py:23 | The greedy word run over a run of word characters followed by a non-word character (or nothing) is exactly that run |
| Phone.StripAfterMatch | data_cleaning.py:23 | After deleting a match at the front, stage 1 resumes right after it |
| Phone.MatchExtensionThen | data_cleaning.py:23 | `x`, a word run and then a non-word character (or nothing) match exactly `x` and the run |
| Phone.StripExtensionThen | data_cleaning.py:23 | An extension in the middle of a number stops at the first non-word character; it is deleted and the text after it is processed on its own |
| Phone.StripKeepsOtherPlus | data_cleaning.py:23 | A `+` that starts none of `+1`, `+44`, `+49` is kept, and scanning goes on after it |
| Phone.StripKeepsLoneX | data_cleaning.py:23 | An `x` not followed by a word character is kept, and scanning goes on after it |
| Phone.PrefixZero | data_cleaning.py:29 | The GB rule fails with `EmptyPhone` exactly on the empty number; otherwise the result starts with `0` and is the number or `0` plus the number, and a number already starting with `0` is kept |
| Phone.PrefixZeroIdempotent | data_cleaning.py:29 | Applying the leading-zero rule again changes nothing |
| Phone.PhoneDigits | data_cleaning.py:23-25 | Stages 1 and 2 leave digits only, obtained from the raw number by deleting characters in order |
| Phone.KeepLastTenIfUs | data_cleaning.py:27 | A US number keeps its last `min(10, len)` characters; any other country's number is unchanged; digits stay digits |
| Phone.PrefixZeroIfGb | data_cleaning.py:29 | The rule fails with `EmptyPhone` exactly on an empty GB number; a successful GB result starts with `0`; any other country's number is unchanged |
| Phone.NormalisePhone | data_cleaning.py:23-29 | The phone rule yields digits only. It fails exactly for a GB number with no digits left. A US number becomes a suffix of its digits of at most ten, all of them when there are ten or fewer. A GB number gets one leading `0` when it lacks one. Other countries get the digits alone |
| Phone.NormalisePhoneIdempotent | data_cleaning.py:23-29 | Normalising a normalised number again changes nothing |
| Phone.GbInternationalForm | data_cleaning.py:23-29 | `+44` followed by a national part becomes the national digits behind a single leading `0` |
| Phone.UsInternationalFormWithExtension | data_cleaning.py:23-27 | `+1`, a national part and an extension become at most the last ten national digits; the extension's digits are gone |
| Users.FixCountryCode | data_cleaning.py:21 | `GGB` becomes `GB`, the result is never `GGB`, and any other code is unchanged |
| Users.FixCountryCodeIdempotent | data_cleaning.py:21 | Correcting the country code twice is the same as once |
| Users.GgbCleanedAsGb | data_cleaning.py:21-29 | The code is corrected before the phone rules read it: a `GGB` row is cleaned exactly like the same row marked `GB` |
| Users.DatesIgnoreCode | data_cleaning.py:13-17 | The address and date rule neither reads nor writes the country code: changing the code beforehand only changes the code in the result |
| Users.PhoneReadsFixedCode | data_cleaning.py:21-29 | The phone rule gives the same row for `GGB` as for `GB`, because it reads only the corrected code |
| Users.EligibleRows | data_cleaning.py:9-11 | The reference selection contains only input rows with a non-`NULL` first name and a 36-character uuid |
| Users.EligibleRowsComplete | data_cleaning.py:9-11 | Every eligible input row is in the reference selection |
| Users.SelectUsers | data_cleaning.py:7-11 | Selection fails exactly when `index`, `first_name` or `user_uuid` is missing, and reports the first missing one in statement order. Otherwise the columns are the input's minus `index` and no rows are added |
| Users.SelectUsersSurvivors | data_cleaning.py:7-11 | Whatever the labels, each selected row is eligible and is an input row without its `index` cell |
| Users.SelectUsersExact | data_cleaning.py:7-11 | With unique labels, the selected rows are exactly the eligible input rows in order, each without its `index` cell |
| Users.SelectUsersAreFilters | data_cleaning.py:7-11 | With unique labels, dropping `index` and then the two masks equals dropping the `index` cell from every row and applying the two order-preserving filters |
| Users.FiltersAfterDropAreEligible | data_cleaning.py:7-11 | Dropping the `index` cell then applying the two filters equals taking the eligible rows and then dropping their `index` cell |
| Users.SentinelFiltersCons | data_cleaning.py:9-11 | The two filters keep a leading row exactly when it is eligible, and treat the remaining rows on their own |
| Users.CleanUserRow | data_cleaning.py:13-29 | Cleaning a row succeeds exactly when both dates parse and the phone rule succeeds for the corrected code. On success only the five rewritten columns change: the address has its line breaks replaced, both dates become the parser's values, the code is corrected and the phone is the normalised number. So the address keeps its length with no line break, and the phone is digits only, starts with `0` for GB and has at most ten digits for US |
| Users.CleanUserRowDates | data_cleaning.py:13-17 | The address and date rule on a row fails exactly when one of the two dates does not parse. On success the address has its line breaks replaced, both dates become the parser's values, and every other column is unchanged |
| Users.CleanUserRowPhone | data_cleaning.py:21-29 | The country-code and phone rule on a row fails with `EmptyPhone` exactly when the phone rule fails for the corrected code. On success the code is corrected, the phone is the normalised number and every other column is unchanged |
| Users.UserSteps | data_cleaning.py:13-29 | The eight column statements read and write only the five rewritten columns, so `first_name`, `user_uuid` and every other column pass through |
| Users.DateStepsParse | data_cleaning.py:15-17 | The two date statements fail on the birth date first, then on the join date, and otherwise replace both dates by their parsed values |
| Users.DateStepsAreRowDates | data_cleaning.py:13-17 | The address and date statements applied to one row equal the row-level address and date rule |
| Users.PhoneStepsAreRowPhone | data_cleaning.py:21-29 | The five country-code and phone statements applied to one row equal the row-level phone rule |
| Users.PhoneStepsReachDigits | data_cleaning.py:21-25 | The first three phone statements leave the corrected code and the bare digits of the number in the row |
| Users.PhoneStepsReachLeadingZero | data_cleaning.py:21-27 | The first four phone statements leave the corrected code and the stage-3 number in the row |
| Users.LeadingZeroStepMatchesRow | data_cleaning.py:29 | The leading-zero statement on the stage-3 row completes the row-level phone rule |
| Users.UserStepsAreCleanUserRow | data_cleaning.py:13-29 | All the rewriting statements applied to one row equal `CleanUserRow` |
| Users.UserStepsAreRowwise | data_cleaning.py:13-29 | On a table with the user columns, the column-wise statements fail exactly when some row fails `CleanUserRow`; otherwise row `i` is row `i` cleaned |
| Users.CleanUserDataIsRowwise | data_cleaning.py:4-30 | `clean_user_data` fails exactly when some selected row fails to clean; otherwise row `i` of the output is selected row `i`, cleaned |
| Users.CleanUserDataNeedsColumns | data_cleaning.py:4-30 | The cleaner succeeds only if the table has `index` and all seven user columns |
| Users.CleanUserRowShape | data_cleaning.py:9-29 | An eligible row that cleans successfully ends with the cleaned shape: still eligible, no line break in the address, no `GGB`, phone of digits, GB phone starting with `0`, US phone of at most ten digits |
| Users.CleanUserDataOrigins | data_cleaning.py:4-30 | Whatever the labels, every output row is an eligible input row, without its `index` cell, run through `CleanUserRow`, and there are no more output rows than input rows |
| Users.CleanUserDataShape | data_cleaning.py:4-30 | Whatever the labels, every output row has the cleaned shape |
| Users.CleanUserDataExact | data_cleaning.py:4-30 | With unique labels, the output is exactly the eligible rows in order, each without `index` and cleaned; the call fails exactly when one of them fails to clean |
| Users.CleanUserData | data_cleaning.py:4-30 | `clean_user_data` fails with `MissingColumn` when `index` is missing. On success the result is well formed, its columns are the input's minus `index` and nothing else, and no rows are added |
| Cards.EligibleCards | data_cleaning.py:35-37 | The reference selection contains only input rows with a non-`NULL` card number and a five-character expiry date |
| Cards.EligibleCardsComplete | data_cleaning.py:35-37 | Every eligible card row is in the reference selection |
| Cards.SelectCards | data_cleaning.py:35-37 | Selection fails exactly when `card_number` or `expiry_date` is missing, and reports the first missing one. Otherwise the columns are unchanged and no rows are added |
| Cards.SelectCardsSurvivors | data_cleaning.py:35-37 | Whatever the labels, each selected card is an eligible input row |
| Cards.FiltersAreEligible | data_cleaning.py:35-37 | The two filters in sequence keep exactly the eligible rows |
| Cards.SelectCardsExact | data_cleaning.py:35-37 | With unique labels, the selected cards are exactly the eligible input rows in order |
| Cards.CleanCardRow | data_cleaning.py:39-43 | Cleaning a card fails exactly when its payment date does not parse. On success, the card number has digits only and is no longer than before. The expiry date and every column other than card number and payment date are untouched |
| Cards.CleanCardNumberDigits | data_cleaning.py:41 | The cleaned card number is the raw one with characters deleted, keeps every digit as often as it occurs, and equals the raw number when that was all digits |
| Cards.CardStepsAreCleanCardRow | data_cleaning.py:39-43 | The card statements applied to one row equal `CleanCardRow` |
| Cards.CardStepsAreRowwise | data_cleaning.py:39-43 | Column-wise, the card statements fail exactly when some row fails `CleanCardRow`; otherwise row `i` is row `i` cleaned |
| Cards.CardSteps | data_cleaning.py:39-43 | The two card statements each rewrite their own column, the card number or the payment date, and touch nothing else |
| Cards.CleanCardDataNeedsColumns | data_cleaning.py:32-44 | The card cleaner succeeds only if all three card columns exist |
| Cards.CleanCardDataOrigins | data_cleaning.py:32-44 | Whatever the labels, every output card is an eligible input row, cleaned; the columns are the input's and no rows are added |
| Cards.CleanCardDataShape | data_cleaning.py:32-44 | Whatever the labels, every output card has a five-character expiry date and a digit-only card number |
| Cards.CleanCardDataExact | data_cleaning.py:32-44 | With unique labels, the output is exactly the eligible cards in order, each cleaned; the call fails exactly when one of their payment dates does not parse |
| Cards.CleanCardData | data_cleaning.py:32-44 | `clean_card_data` fails with `MissingColumn` when `card_number` is missing. On success the result is well formed, keeps the input's columns in order and adds no rows |
| Orders.CleanOrdersData | data_cleaning.py:64-70 | The orders cleaner fails exactly when `level_0` is missing; otherwise the columns are the input's minus `level_0` and the row count is kept |
| Orders.CleanOrdersDataKeepsOrders | data_cleaning.py:67 | Every order keeps its label and all its cells except `level_0`, and the other columns keep their order |
| Orders.CleanOrdersDataTwiceFails | data_cleaning.py:67 | Cleaning the orders twice fails, because `level_0` is gone after the first call |
| Products.CompleteRows | data_cleaning.py:54 | `dropna` keeps exactly the rows with no missing cell, as a subsequence of the input |
| Products.CompleteRowsCounts | data_cleaning.py:54 | `dropna` keeps each complete row as many times as it occurs in the input, and no other row |
| Products.DropNa | data_cleaning.py:54 | After `dropna` the columns are unchanged and no row has a missing cell |
| Products.CompleteRowsIdempotent | data_cleaning.py:54 | A second `dropna` changes nothing |
| Products.CompleteRowsOfComplete | data_cleaning.py:54 | A table without missing values loses no row to `dropna` |
| Products.AppendStar | data_cleaning.py:61 | The weight rule fails exactly on a missing value; otherwise the result is the weight followed by one `*` |
| Products.StripStarInverts | data_cleaning.py:61 | Removing the final `*` recovers the original weight |
| Products.ConvertProductWeights | data_cleaning.py:58-62 | The weight conversion fails with `MissingColumn` without a `weight` column, and with `MissingValue` exactly when some weight is missing. Otherwise each weight gains a `*` and nothing else changes |
| Products.ConvertCompleteTable | data_cleaning.py:58-62 | On a table without missing values the weight conversion succeeds, and each row gains a `*` on its weight with every other cell and its label unchanged |
| Products.WeightsStarred | data_cleaning.py:58-62 | A successful conversion leaves no weight missing, keeps the row count and the well-formedness, and can be applied again |
| Products.ConvertProductWeightsTwice | data_cleaning.py:58-62 | Converting twice appends `**`, so the conversion is not idempotent |
| Products.CleanProductsData | data_cleaning.py:51-56 | The products cleaner fails exactly when `weight` is missing, and keeps the columns |
| Products.CleanProductsDataRows | data_cleaning.py:51-56 | The output rows are exactly the complete input rows, in order. Each keeps its label and its cells except the weight, which gains a `*` |
| Products.CleanProductsDataConvertsAgain | data_cleaning.py:51-62 | No weight in the cleaned table is missing, so converting it again cannot fail on a missing value |

## Left out

- The rest of the pipeline, main.py, data_extraction.py and database_utils.py, is not part of this model. That code handles database connections, PDF, API and S3 extraction, and upload; it is I/O only.
- `clean_store_data` (data_cleaning.py:46-49) and `clean_date_events` (data_cleaning.py:72-75) return their input unchanged at this revision. There is no rule to model.
- The `print(orders.info())` of data_cleaning.py:69 is output only.
- The cleaners mutate the caller's DataFrame in place (`inplace=True`). The model returns a new table, and sharing between caller and callee is not modelled.
- Date parsing (`pd.to_datetime`) is the parameter `toDatetime`. Its format inference, its element-by-element behaviour on mixed formats and the datetime dtype are not modelled; a parsed date is represented as text.
- Birth dates later than join dates are kept. The rule that would drop them is commented out in the source (data_cleaning.py:19).
- `\w` and `\D` are ASCII-only here, while Python's `re` also treats non-ASCII letters and digits as word characters and digits.
- Cells are strings, or optional strings for products. NaN in the string columns, numeric dtypes and the `astype(str)` cast of data_cleaning.py:39 are not modelled: the cast is the identity on strings.
- Duplicate column names are excluded by `Tables.WellFormed`.
- On a table with no rows, pandas' `apply(axis=1)` returns an empty frame, and assigning that to a column is a pandas quirk. The model treats the statement as an assignment to an empty column.
- The code does not re-index the cleaned cards, drops no orders column other than `level_0`, does not convert weights to kilograms and drops no rows for unparseable weights. The model does none of these either.
- `Products.CleanProductsData`: its own contract states only success, failure and the columns. The row-by-row promise is in `Products.CleanProductsDataRows`, to keep each proof small.
