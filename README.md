# The user-data cleaner of the retail data pipeline, in Dafny

The pipeline pulls the legacy user table out of a relational database,
cleans it, and appends the result to the `dim_users` table of the sales
database. This project models the cleaning step, `DataCleaning.clean_user_data`
(`data_cleaning.py`), and proves what it guarantees about the table it returns.

The cleaner runs a fixed sequence of passes over a pandas DataFrame:

1. drop the rows with a missing `first_name`, `last_name`, `email_address`,
   `join_date` or `date_of_birth`;
2. convert `join_date` and `date_of_birth` to dates, writing a missing value
   where a cell does not parse;
3. drop the rows whose conversion failed;
4. keep the rows whose `email_address` is text matching `^[\w.-]+@[\w.-]+\.\w+$`;
5. strip every non-digit from `phone_number`;
6. compute a temporary `age` column (current year minus birth year) and keep
   the rows with an age from 0 to 120;
7. keep the first row of each (`email_address`, `user_uuid`) pair;
8. drop the `age` column.

## Structure

- `wrappers.dfy`, module `Wrappers`: `Option`, `Result`, and `Values`/`Positions`,
  which pick the present entries out of a sequence of options.
- `tables.dfy`, module `Tables`: the table. A `Cell` is `Null`, `Text`, `Int` or
  `Dated(Date)`. A `Row` maps column names to cells. A `Table` has a column list
  and a sequence of rows. `WellFormed` is the table shape the column lemmas
  (`CleanedWellFormed`) assume: distinct column names, and every row has exactly
  those columns. The cleaner itself accepts any table. This module also
  holds the column-list effects of adding a column, dropping one, and the
  KeyError of `dropna(subset=...)`.
- `patterns.dfy`, module `Patterns`: the two regular expressions. `DigitsOnly`
  is `\D` replaced by nothing. `EmailPattern` is the email pattern written as
  the set of strings it accepts. `MatchesEmail` decides it. Python's `$` also
  matches just before a final newline, so `"a@b.co\n"` passes the email filter. The
  model keeps this behaviour (`FinalNewlinePasses`).
- `primitives.dfy`, module `Primitives`: the DataFrame operations the cleaner
  uses. A row filter (`Filter`) covers `dropna` and boolean masks. A column
  rewrite (`Apply`) covers `df[col] = ...` and `drop`. `Dedup` is
  `drop_duplicates(keep='first')`. Each has a specification function and a
  method with a loop proved to compute it (`FilterRows`, `MapRows`,
  `DropDuplicates`).
- `data_cleaning.dfy`, module `DataCleaning`: the cleaner. `CleanUserData` is
  the method that runs the passes in the source's order on a local row
  sequence. `Cleaned` is the function it is proved equal to. `CleanRow` is an
  independent row-at-a-time reference. The lemmas say what a returned row is,
  how returned rows relate to input rows, and that cleaning twice equals
  cleaning once.

Two things are parameters. The date parser, `DateParser = Cell -> Option<Date>`,
stands for `pd.to_datetime(..., errors='coerce')`. `currentYear` stands for
`pd.Timestamp.now().year`. Every result holds for every parser and every year.

A column the cleaner reads but the table lacks raises a pandas `KeyError`. The
model returns `Failure(KeyError(missing))`, checked in the source's order:

- the five required columns, at `dropna` (line 7), listing all that are absent;
- then `phone_number` (line 21);
- then `user_uuid` (line 30), but only when some row survives the filters.
  `drop_duplicates` returns an empty frame as it is, before it looks up its
  key columns, so a table without `user_uuid` whose rows are all filtered out
  cleans to an empty table (`CleanedEmptyWithoutUuid`).

The comment at `data_cleaning.py:29` speaks of duplicates in `email_address`
*or* `user_uuid`. The code removes duplicates of the *pair*, and the model
follows the code. As in pandas, two missing cells count as equal in that
comparison.

An input table that already has an `age` column loses it: line 26 overwrites
the column and line 33 drops it. So the output columns are the input columns
without `age`, in their order (`CleanedWellFormed`).

## Model

| member | source | states |
|---|---|---|
| Tables.NoneMissing | data_cleaning.py:7 | `dropna(subset=...)` raises no KeyError exactly when every subset name is a column |
| Tables.MissingColumns | data_cleaning.py:7 | the KeyError list of `dropna(subset=...)`: exactly the subset names the table lacks |
| Tables.WithColumn | data_cleaning.py:26 | assigning `age` leaves the column set with `age` added, keeps names distinct, and dropping `age` afterwards gives the same list as dropping it from the original |
| Tables.Without | data_cleaning.py:33 | `drop(columns=['age'])` keeps every other column and no `age`, keeps names distinct, and changes nothing when there is no `age` |
| Patterns.DigitsOnly | data_cleaning.py:21 | the result has only digits and is no longer than the input |
| Patterns.DigitsOnlyCounts | data_cleaning.py:21 | each digit occurs in the result as often as in the input |
| Patterns.DigitsOnlyAppend | data_cleaning.py:21 | stripping works piece by piece, so the digits keep their original order |
| Patterns.DigitsOnlyOfDigits | data_cleaning.py:21 | a string of digits is left unchanged, so stripping is idempotent |
| Patterns.SplitIsCanonical | data_cleaning.py:18 | a match of the email pattern splits only at the first '@' and the last '.' |
| Patterns.MatchesWhole | data_cleaning.py:18 | decides exactly when `[\w.-]+@[\w.-]+\.\w+` matches a whole string |
| Patterns.MatchesEmail | data_cleaning.py:18 | decides exactly when `re.search` with `^...$` accepts the string |
| Patterns.MatchEndsInWordChar | data_cleaning.py:18 | every match ends in a word character |
| Patterns.FinalNewlinePasses | data_cleaning.py:18 | an address followed by one newline passes the email filter, although the body of the pattern does not match it |
| Patterns.EmailHasOneAt | data_cleaning.py:18 | an accepted address has exactly one '@', with text on both sides |
| Primitives.Passes | data_cleaning.py:7-27 | the row tests of the filters: the listed cells are present (lines 7 and 14), the email cell is text the pattern accepts (line 18), the age cell is an integer from 0 to 120 (line 27); `Filter` and `CleanRowMeaning` state what passing means for the kept rows |
| Primitives.YearsFrom | data_cleaning.py:26 | the age is the year minus the birth year, and missing when the birth date is missing; `CleanRowMeaning` states the age of a kept row |
| Primitives.Rewritten | data_cleaning.py:10-33 | a column rewrite changes one cell of the row (a coerced date, stripped digits, the age) or removes `age`; `CleanRowRewrites` states the resulting row |
| Primitives.Apply | data_cleaning.py:10-33 | a rewrite applied to every row; `MapRows` is the loop proved to compute it |
| Primitives.Dedup | data_cleaning.py:30 | `drop_duplicates(keep='first')` on the key columns; its properties are `DedupMeaning`, `DedupOriginsIndexRows`, `DedupKeepsFirst`, `DedupOfDistinct`, `DedupDropCommute`, and `DropDuplicates` is the loop proved to compute it |
| Primitives.CoerceDate | data_cleaning.py:10-11 | coercion yields a date or a missing value; a date stays the same; a missing value stays missing; anything else becomes its parse, or missing when the parse fails |
| Primitives.StripNonDigits | data_cleaning.py:21 | text becomes its digits; a value that is not text comes out missing |
| Primitives.Filter | data_cleaning.py:7-27 | every kept row passes the test and comes from the input; every input row that passes is kept |
| Primitives.FilterAppend | data_cleaning.py:7-27 | a filter decides row by row, so it splits over concatenation |
| Primitives.FilterRows | data_cleaning.py:7-27 | the loop builds exactly `Filter` of its input |
| Primitives.MapRows | data_cleaning.py:10-33 | the loop that rewrites rows in place yields exactly `Apply` of its input |
| Primitives.DedupMeaning | data_cleaning.py:30 | `Dedup` keeps the same set of keys as its input, no two output rows share a key, and every output row comes from the input |
| Primitives.DedupOriginsIndexRows | data_cleaning.py:30 | output row j is the input row at the j-th listed position, and the positions increase |
| Primitives.DedupKeepsFirst | data_cleaning.py:30 | a position is kept exactly when no earlier row has its key (`keep='first'`) |
| Primitives.DedupOfDistinct | data_cleaning.py:30 | rows with distinct keys are returned unchanged |
| Primitives.DedupDropCommute | data_cleaning.py:30-33 | dropping a column outside the key before or after deduplication gives the same rows |
| Primitives.DropDuplicates | data_cleaning.py:30 | the loop with a set of seen keys yields exactly `Dedup` of its input |
| DataCleaning.Screen | data_cleaning.py:7-27 | the filters and rewrites of lines 7 to 27 in the source's order; `ScreenIsRowWise`, `CleanEachOrigin` and `ScreenEmpty` state what they keep |
| DataCleaning.CleanRow | data_cleaning.py:7-33 | one row cleaned on its own, or dropped; `CleanRowMeaning`, `CleanRowRewrites`, `CleanRowFixpoint` and `CleanRowKeepsKey` state its result |
| DataCleaning.CleanRows | data_cleaning.py:7-33 | the rows the cleaner returns; `CleanRowsIsRowWise`, `CleanRowsValid`, `CleanRowsOrigin`, `CleanRowsFirstWins`, `CleanRowsKeepEveryPair` and `CleanRowsIdempotent` state their properties |
| DataCleaning.Cleaned | data_cleaning.py:4-36 | the whole cleaner, with its KeyErrors; `CleanUserData`, `CleanedFailsOnMissingColumn`, `CleanedSucceeds`, `CleanedEmptyWithoutUuid`, `CleanedWellFormed` and `CleanedIdempotent` state its properties |
| DataCleaning.CleanUserData | data_cleaning.py:4-36 | the method equals `Cleaned`, so it fails exactly as `CleanedFailsOnMissingColumn` says, and `user_uuid` is looked up only when rows remain; on success every row meets `UserRow` and no two rows share an (email, uuid) pair |
| DataCleaning.CleanRowMeaning | data_cleaning.py:7-33 | a kept row has the five required values, parsed dates, a matching email, a digits-only or missing phone, an age from 0 to 120 and no `age` column; it differs from its input only in the coerced dates, the stripped phone and the missing `age`; a row whose date fails to parse is dropped |
| DataCleaning.CleanRowRewrites | data_cleaning.py:10-33 | a kept row has the input's columns plus the two dates and the phone number, minus `age`; the dates are coerced, the phone is stripped, and every other cell is unchanged |
| DataCleaning.CleanRowFixpoint | data_cleaning.py:7-33 | a row that already meets the invariants is kept unchanged |
| DataCleaning.CleanRowKeepsKey | data_cleaning.py:30 | cleaning leaves the (email, uuid) pair of a row as it was |
| DataCleaning.CleanEachOrigin | data_cleaning.py:7-27 | the rows surviving the filters are the cleaned input rows at increasing positions, and exactly the rows that survive on their own are kept |
| DataCleaning.ScreenIsRowWise | data_cleaning.py:7-27 | the step-by-step filters and rewrites, with `age` dropped, equal cleaning each row on its own |
| DataCleaning.CleanRowsIsRowWise | data_cleaning.py:7-33 | the whole pass sequence equals row-by-row cleaning followed by first-wins deduplication |
| DataCleaning.CleanRowsValid | data_cleaning.py:7-30 | every returned row meets `UserRow`, and no two returned rows share an (email, uuid) pair |
| DataCleaning.CleanRowsOrigin | data_cleaning.py:7-30 | the output is an order-preserving selection of input rows, each cleaned as `CleanRow` says |
| DataCleaning.CleanRowsFirstWins | data_cleaning.py:30 | no row that survives the filters earlier in the input has the (email, uuid) pair of a returned row |
| DataCleaning.CleanRowsKeepEveryPair | data_cleaning.py:30 | every (email, uuid) pair of a row that survives the filters appears in the output |
| DataCleaning.ScreenEmpty | data_cleaning.py:7-27 | the filters drop every row exactly when no row survives cleaning on its own |
| DataCleaning.CleanedFailsOnMissingColumn | data_cleaning.py:7-30 | the cleaner fails exactly when a required column or `phone_number` is absent, or `user_uuid` is absent while some row survives the filters; a failure names only absent columns |
| DataCleaning.CleanedSucceeds | data_cleaning.py:7-36 | with the columns present that the cleaner looks up, it returns the input's columns without `age` and the cleaned rows |
| DataCleaning.CleanedEmptyWithoutUuid | data_cleaning.py:30 | a table without `user_uuid` whose rows are all filtered out cleans to an empty table, not a KeyError |
| DataCleaning.CleanedUuidOrEmpty | data_cleaning.py:30-33 | a successful clean keeps `user_uuid` among its columns or returns no rows |
| DataCleaning.CleanRowsKeys | data_cleaning.py:26-33 | when every input row has the same columns, every returned row has those columns without `age` |
| DataCleaning.CleanedWellFormed | data_cleaning.py:26-33 | the cleaned table is well formed, and its columns are the input's without `age`, which is the input's own list when it had no `age` |
| DataCleaning.CleanRowsIdempotent | data_cleaning.py:7-33 | cleaning the cleaned rows again leaves them unchanged |
| DataCleaning.CleanedIdempotent | data_cleaning.py:4-36 | cleaning a cleaned table gives the same table |

## Left out

- `\w` and `\d` are the ASCII classes. Python's `\w` also takes non-ASCII letters and digits, and its `\D` keeps non-ASCII digits. The model rejects or strips these characters instead.
- The parsing rules of `pd.to_datetime` are not modelled; the parser is a parameter. Under pandas 2, one format is inferred per column from its first value, so whether a cell parses can depend on other cells. The per-cell parser does not capture that.
- A parsed value in pandas is a timestamp with a time of day. `Date` keeps only year, month and day, and only the year is used.
- Primitives.CoerceDate: a cell that already holds a date is kept as it is. This assumes every date cell lies within the range of pandas 2.x nanosecond timestamps (1677-09-21 to 2262-04-11), the version the model follows. Outside that range `to_datetime(errors='coerce')` makes the date missing, so pandas drops a row whose `join_date` is, say, the year 3000 at line 14, and the model keeps it. For `date_of_birth` the age range of line 27 drops such rows in both.
- The wall-clock read at line 25 is the parameter `currentYear`.
- The whole-column `AttributeError` of the `.str` accessor is not modelled. pandas raises it when the type it infers for the column is not string-like, for example a numeric or datetime column. The model treats non-text cells one by one, as pandas does for an object column that passes that test: a non-text cell fails the email test and becomes missing in the phone column.
- Column data types and the pandas row index are not modelled. The upload at `data_utils.py:109` writes without the index.
- Duplicate column names are outside `WellFormed`, so the column lemmas do not cover them.
- `data_utils.py`, `data_extraction.py`, `main.py` and the `task*.py` scripts are not part of this model. They do credential loading, database and HTTP access, uploads and printing.
- The cleaners for cards, stores, products, orders and dates are called from `main.py`. They are not in `data_cleaning.py`, so they are not part of this model.
