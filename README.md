# MemberPress / Genius Referrals reconciliation, in Dafny

`CSVReader.find_missing_members` takes two exports:

- a MemberPress user export, with `first_name`, `last_name` and `email`;
- a Genius Referrals advocate export, with `ADVOCATE_EMAIL`.

It returns the MemberPress users who are not yet advocates. The result is laid
out as a Genius Referrals import file with nine columns.

Emails are compared by a key:

1. an absent value becomes the empty string;
2. the value is rendered as text;
3. surrounding whitespace is stripped;
4. the text is lower-cased.

A missing required column raises a `ValueError` whose message names the
columns. `CSVReader.get_csv_info` summarises a loaded table: its row count, its
column count, its header, and the number of absent cells in each column.

This project models both operations on loaded tables and proves what they
promise.

- `tables.dfy` (module `Tables`) defines cells, rows and tables.
  - A cell is absent (`Null`), text (`Str`) or an integer (`Int`).
  - A row maps column names to cells.
  - A table is an ordered header plus a sequence of rows.
- `text.dfy` (module `Text`) defines Python's `str.strip()` with no argument
  and `str.lower()`.
  - Strip uses exactly the characters `str.isspace()` accepts.
  - Lower-casing covers the ASCII letters.
  - Lemmas prove the shape of the result, idempotence, that stripping and
    lower-casing commute, and that surrounding whitespace is irrelevant.
- `csv_reader.dfy` (module `CsvReader`) holds the model itself.
  - The import header `MISSING_MEMBER_OUTPUT_COLUMNS` is copied byte-exact,
    including its leading, trailing and double spaces and the U+2019 apostrophe.
  - The two schema errors and their messages.
  - The email key and its properties.
  - The functional specification `Reconciled`.
  - The operation as the source builds it: `FindMissingMembers`, proved equal
    to `Reconciled`. It calls `SelectMissing`, a loop for the `.loc` selection
    and the `rename`, and `AssignConstantColumns`, nested loops for the six
    in-place column assignments.
  - `get_csv_info` without `dtypes`.
- `csv_reader_properties.dfy` (module `CsvReaderProperties`) proves the
  promises of `find_missing_members`:
  - the error conditions and their order;
  - the exact sorted list of missing names;
  - the output header and row contents;
  - selection as an order-preserving set difference on the email key;
  - the meaning of the `missing_values` counts.
- `csv_reader_scenarios.dfy` (module `CsvReaderScenarios`) works out the
  concrete cases of the test suite on the model, plus a few further cases.

The MemberPress check runs before the Genius Referrals check, so when both
exports are deficient only the MemberPress error is raised, naming only
MemberPress columns. A reading that reports every missing column of both files
together does not match the code, and the model follows the code.

## Model

| member | source | states |
|---|---|---|
| Text.IsSpace | src/csv_reader.py:149 | definition of Python's whitespace for `strip`: the ASCII controls 9-13 and 28-31, space, U+0085, U+00A0, U+1680, U+2000-U+200A, U+2028, U+2029, U+202F, U+205F and U+3000; used by every strip lemma below |
| Text.TrimStart | src/csv_reader.py:149 | definition of `lstrip()`; characterised by `Text.TrimStartShape` |
| Text.TrimEnd | src/csv_reader.py:149 | definition of `rstrip()`; characterised by `Text.TrimEndShape` |
| Text.Strip | src/csv_reader.py:149 | definition of `strip()` as `rstrip` after `lstrip`; characterised by `Text.StripIdempotent`, `Text.StripPadded` and `Text.StripAllSpace` |
| Text.LowerString | src/csv_reader.py:149 | definition of `lower()`, character by character, with ASCII case mapping; characterised by `Text.LowerStrip`, `Text.LowerIdempotent` and `Text.LowerOfUpper` |
| Text.TrimStartShape | src/csv_reader.py:149 | lstrip removes a prefix made only of whitespace, and what remains is a suffix of the input that is empty or does not start with whitespace |
| Text.TrimEndShape | src/csv_reader.py:149 | rstrip removes a suffix made only of whitespace, and what remains is a prefix of the input that is empty or does not end with whitespace |
| Text.StripIdempotent | src/csv_reader.py:149 | stripping twice is stripping once |
| Text.StripPadded | src/csv_reader.py:149 | whitespace on either side of a value does not change its stripped form |
| Text.StripAllSpace | src/csv_reader.py:149 | a blank string strips to the empty string |
| Text.LowerStrip | src/csv_reader.py:149 | lower-casing and stripping commute |
| Text.LowerIdempotent | src/csv_reader.py:149 | lower-casing twice is lower-casing once |
| Text.LowerOfUpper | src/csv_reader.py:149 | with ASCII case mapping, lower-casing an upper-cased string gives the lower-cased original |
| CsvReader.MissingMemberOutputColumns | src/csv_reader.py:8-18 | definition of the nine import column names, in order, with their inner spaces and the U+2019 quotation mark; characterised by `CsvReaderProperties.OutputColumnsDistinct` and `CsvReaderProperties.OutputRowContents` |
| CsvReader.StrLess | src/csv_reader.py:115 | definition of the code-point order `sorted` uses on `str`; characterised by `CsvReader.StrLessAsymmetric` and `CsvReaderProperties.RequiredColumnsSorted` |
| CsvReader.StrLessAsymmetric | src/csv_reader.py:115 | no two strings each precede the other, which is what makes the sorted list unique |
| CsvReader.MissingColumns | src/csv_reader.py:110-111 | a name is reported missing exactly when it is required and absent from the header; a sorted required list gives a sorted result |
| CsvReader.Join | src/csv_reader.py:115 | definition of `", ".join`; characterised by `CsvReader.JoinEnds` and, for the required names, by `CsvReaderScenarios.BothHeadersDeficient` |
| CsvReader.JoinEnds | src/csv_reader.py:115 | `", ".join` of a non-empty list starts with its first name and ends with its last |
| CsvReader.Message | src/csv_reader.py:112-119 | each message opens with its own export's prefix and never with the other's, so the opening words tell which export is deficient; the MemberPress message ends with the last missing name and the Genius Referrals message ends with `ADVOCATE_EMAIL` |
| CsvReader.SortedUnique | src/csv_reader.py:115 | two strictly sorted lists with the same elements are equal, so the reported list is the one `sorted` produces |
| CsvReader.Render | src/csv_reader.py:149 | `fillna("")` turns an absent cell into the empty string, text is kept as it is, and an integer becomes a non-empty run of decimal digits with a leading `-` exactly when it is negative and no leading zero unless it is zero |
| CsvReader.DecimalDigitsValue | src/csv_reader.py:149 | the decimal digits `astype(str)` writes for a natural number spell that number |
| CsvReader.RenderedIntValue | src/csv_reader.py:149 | a rendered integer reads back as the integer: its digits spell the magnitude, after a `-` exactly when it is negative |
| CsvReader.NormalizeText | src/csv_reader.py:149 | with ASCII case mapping, `.str.strip().str.lower()` of a text is never longer than the text; characterised by the `Normalize…` lemmas below |
| CsvReader.NormalizeEmail | src/csv_reader.py:145-149 | an absent cell has the empty key, and, with ASCII case mapping, the key of a text is never longer than the text |
| CsvReader.NormalizedIsKey | src/csv_reader.py:145-149 | every key has no leading or trailing whitespace and no ASCII capital letter |
| CsvReader.KeyIsItsOwnKey | src/csv_reader.py:145-149 | with ASCII case mapping, a text that already has no surrounding whitespace and no ASCII capital letter is its own key |
| CsvReader.NormalizeEmailSeries | src/csv_reader.py:145-149 | the normalised series has one key per row, and every absent cell in it has the empty key; that the i-th key is the key of row i holds by definition |
| CsvReader.InNormalizedSeries | src/csv_reader.py:121-124 | a key is among the normalised advocate emails exactly when some cell of the column has that key |
| CsvReader.NormalizeIdempotent | src/csv_reader.py:145-149 | normalising an already normalised email changes nothing |
| CsvReader.NormalizeIgnoresCase | src/csv_reader.py:145-149 | two values equal up to ASCII letter case get the same key |
| CsvReader.NormalizeIgnoresPadding | src/csv_reader.py:145-149 | surrounding whitespace does not change the key |
| CsvReader.NormalizeUpperPadded | src/csv_reader.py:145-149 | with ASCII case mapping, the key of `" " + e.upper() + " "` is the key of `e.lower()` |
| CsvReader.NormalizeBlank | src/csv_reader.py:145-149 | an absent cell and a blank text both have the empty key |
| CsvReader.MissingMask | src/csv_reader.py:124 | definition of `~memberpress_emails.isin(genius_emails)`: position i is set exactly when the i-th key is not among the advocate keys; characterised by `CsvReaderProperties.SelectedIff` |
| CsvReader.TrueIndices | src/csv_reader.py:124-125 | the positions `.loc[mask]` keeps are set positions of the mask, strictly increasing, and no more than the mask is long |
| CsvReader.TrueIndicesComplete | src/csv_reader.py:124-125 | every set position of the mask is kept |
| CsvReader.Renamed | src/csv_reader.py:125-134 | the j-th selected column (`first_name`, `last_name`, `email`) becomes the j-th import column (`First Name`, `Last name `, `Email`) with its cell unchanged, and no other column is kept |
| CsvReader.Assigned | src/csv_reader.py:136-141 | definition of a row after the first k constant-column assignments, in assignment order; characterised by `CsvReaderProperties.OutputRowContents` |
| CsvReader.OutputRow | src/csv_reader.py:125-141 | definition of one import row: the renamed cells, then all six assignments; characterised by `CsvReaderProperties.OutputRowContents` and `CsvReaderProperties.OutputRowColumns` |
| CsvReader.MissingMemberIndices | src/csv_reader.py:121-125 | the kept MemberPress positions are row positions of the export and strictly increasing, so `.loc` keeps the rows in their order; which positions are kept is stated by `CsvReaderProperties.SelectedIff` |
| CsvReader.Reconciled | src/csv_reader.py:110-143 | a MemberPress error lists at least one name, and only required names absent from the header; a Genius Referrals error means the MemberPress header is complete and `ADVOCATE_EMAIL` is absent; a result table means both headers are complete, its header is the nine import columns, and it has no more rows than the MemberPress export |
| CsvReader.SelectMissing | src/csv_reader.py:121-134 | the loop keeps, in order, exactly the rows whose key is not an advocate key, each under the import names of its three copied cells |
| CsvReader.AssignConstantColumns | src/csv_reader.py:136-143 | after the six assignments the header is the nine import columns in order and every row has the six constants added |
| CsvReader.FindMissingMembers | src/csv_reader.py:89-143 | the step-by-step operation returns exactly the specified outcome: the error or the import table |
| CsvReader.NullCount | src/csv_reader.py:86 | the null count of a column is at most its length; it is zero exactly when no cell is absent, and equals the length exactly when every cell is absent |
| CsvReader.NullCountIsCount | src/csv_reader.py:86 | the null count of a column is the number of positions holding an absent cell |
| CsvReader.GetCsvInfo | src/csv_reader.py:81-87 | `rows`, `columns` and `column_names` are the row count, the column count and the header; `missing_values` has one entry per column, and `missing_values[c]` is the number of rows in which `c` is absent, so none is above the row count |
| CsvReaderProperties.RequiredColumnsSorted | src/csv_reader.py:110-115 | the required MemberPress names in code-point order |
| CsvReaderProperties.MemberpressColumnsChecked | src/csv_reader.py:110-116 | whatever the Genius Referrals export holds, a MemberPress header without all three names gives the error listing exactly the absent names, sorted, joined by ", " after the fixed prefix |
| CsvReaderProperties.MemberpressErrorIff | src/csv_reader.py:110-116 | the MemberPress error is raised if and only if a required column is absent |
| CsvReaderProperties.AdvocateColumnChecked | src/csv_reader.py:110-119 | the Genius Referrals error is raised if and only if the MemberPress header is complete and `ADVOCATE_EMAIL` is absent |
| CsvReaderProperties.AdvocateMessageNamesColumn | src/csv_reader.py:119 | the Genius Referrals error message names `ADVOCATE_EMAIL` |
| CsvReaderProperties.OutputColumnsDistinct | src/csv_reader.py:8-18 | the nine import column names are pairwise distinct |
| CsvReaderProperties.OutputRowContents | src/csv_reader.py:125-141 | an import row is exactly the three copied cells, unnormalised, under `First Name`, `Last name ` and `Email`, plus payout threshold 1, currency `USD`, member type `ADVOCATE` and three empty optional fields |
| CsvReaderProperties.OutputRowColumns | src/csv_reader.py:125-143 | every import row has exactly the nine import columns |
| CsvReaderProperties.ResultShape | src/csv_reader.py:118-143 | with both headers complete the result is a table, not an error, even with zero rows; its header is the nine import columns, its rows match the header, and it has no more rows than the MemberPress export |
| CsvReaderProperties.MissingMembersExactly | src/csv_reader.py:121-125 | the result rows are the import rows of a strictly increasing selection of MemberPress positions, and a position is selected exactly when its email key is no advocate's key |
| CsvReaderProperties.SelectedIff | src/csv_reader.py:121-124 | position `i` is selected if and only if its email key is not the key of any advocate email |
| CsvReaderProperties.DuplicatesSelectedAlike | src/csv_reader.py:121-125 | two MemberPress rows with the same email key are both kept or both dropped, so duplicates survive together |
| CsvReaderProperties.BlankEmailsDropped | src/csv_reader.py:121-124 | when some advocate email is absent or blank, no MemberPress row with an absent or blank email is selected |
| CsvReaderProperties.NoneMissing | src/csv_reader.py:121-143 | when every MemberPress email is already an advocate's, the result is the empty import table with the nine columns |
| CsvReaderProperties.MissingValuesMeaning | src/csv_reader.py:86 | `missing_values[c]` is zero exactly when column `c` has no absent cell, and equals `rows` exactly when every cell of `c` is absent |
| CsvReaderScenarios.FixtureAsWrittenIsRefused | tests/test_csv_reader.py:57-66 | with the advocate column named `MEMBER_EMAIL`, as the test fixture has it, the reconciler raises the Genius Referrals error, whatever the rows of the two exports |
| CsvReaderScenarios.UpperCaseCarolKey | tests/test_csv_reader.py:60 | `CAROL@EXAMPLE.COM` has the key `carol@example.com` |
| CsvReaderScenarios.FixtureSelection | tests/test_csv_reader.py:47-80 | with the advocate column named `ADVOCATE_EMAIL`, only Alice's position is selected |
| CsvReaderScenarios.SingleMissing | src/csv_reader.py:121-143 | when exactly one position is selected, the result is that member's import row alone |
| CsvReaderScenarios.MemberOutputRow | src/csv_reader.py:125-141 | a member's import row, field by field |
| CsvReaderScenarios.FixtureWithAdvocateColumn | tests/test_csv_reader.py:47-90 | with the advocate column named `ADVOCATE_EMAIL`, the result is the nine-column table holding Alice's row alone, field by field as the test expects |
| CsvReaderScenarios.LastNameMissing | src/csv_reader.py:110-116 | a MemberPress export without `last_name` is refused with the message naming `last_name` |
| CsvReaderScenarios.BothHeadersDeficient | src/csv_reader.py:110-119 | when both exports are deficient (a MemberPress header of only `name`, an advocate column named `MEMBER_EMAIL`), only the MemberPress error is raised, listing `email, first_name, last_name`, whatever the rows |
| CsvReaderScenarios.SameKeysCovered | src/csv_reader.py:121-124 | when the advocate at each member's position has that member's key, every member is already an advocate |
| CsvReaderScenarios.FullOverlap | src/csv_reader.py:121-143 | advocates written padded, as is and title-case still match every member, giving the empty import table |
| CsvReaderScenarios.InfoScenario | tests/test_csv_reader.py:22-39 | the test table has 3 rows and 3 columns, one absent `name` and no absent `age` |

## Left out

- Loading the exports is left out: `read_csv`, `read_multiple_csvs`, the `encoding` setting and the constructor. This covers file existence checks, pandas CSV parsing, character encodings and option pass-through. Both exports enter the model as loaded tables.
- `src/main.py` is not part of this model. It holds path handling, directory creation, writing the CSV and console output.
- The `dtypes` entry of `get_csv_info` is left out. Pandas type inference has no counterpart in the model.
- Floating-point cells are left out. `astype(str)` renders integers in decimal, and the model does too; pandas' float rendering, for example a numeric column read with gaps, is not modelled.
- Text.UpperString: maps the ASCII letters only, as `Text.Lower` does. Python's `str.upper` also maps other cased letters, and some of them to several characters (`"ß".upper()` is `"SS"`).
- Text.LowerOfUpper: holds for the model's ASCII case mapping only. For Python's full Unicode mapping it fails: `"ß".upper().lower()` is `"ss"`, not `"ß"`.
- CsvReader.NormalizeUpperPadded: holds for the model's ASCII case mapping only, for the same reason as `Text.LowerOfUpper`. With Python's mapping the key of `" " + "ß".upper() + " "` is `"ss"`, while the key of `"ß".lower()` is `"ß"`.
- CsvReader.KeyIsItsOwnKey: holds for the model's ASCII case mapping only. A text such as `"É"` has no ASCII capital and is its own key in the model, but Python's `"É".strip().lower()` is `"é"`.
- CsvReader.NormalizeText: the bound "never longer than the text" holds for the model's ASCII case mapping only. Python's `"İ".lower()` (U+0130) is two characters, `"i̇"`, so Python's key can be longer than its text.
- CsvReader.NormalizeEmail: the bound "the key is never longer than the text" holds for the model's ASCII case mapping only, for the same reason as `CsvReader.NormalizeText` (U+0130).
- Text.LowerString: maps the ASCII letters only, through the character mapping `Text.Lower`. Python's `str.lower` also maps every other cased Unicode letter, so two emails that differ only in non-ASCII letter case get different keys in the model.
- Duplicate column names are left out. A header that repeats a name cannot be expressed in a row that maps names to cells.
- The pandas row index is left out. The result DataFrame keeps the MemberPress index labels of its rows; the model records them as the selected positions (`MissingMemberIndices`).
- The in-place mutation of a copied DataFrame (`inplace=True`, column assignment) is modelled as reassignment of row sequences inside the methods. No aliasing between the result and the MemberPress table is modelled, because the source works on a `.copy()`.

## Findings

| source | as written | input that shows it | evidently intended | confidence | as-written member | corrected member |
|---|---|---|---|---|---|---|
| tests/test_csv_reader.py:57-62 | the Genius Referrals fixture names its email column `MEMBER_EMAIL`, but `find_missing_members` requires `ADVOCATE_EMAIL` (src/csv_reader.py:118-119) | the fixture itself: members Alice, Bob, Carol; advocates `bob@example.com` and `CAROL@EXAMPLE.COM` under `MEMBER_EMAIL` | the column is named `ADVOCATE_EMAIL`, and the result is Alice's import row alone, as the test's assertions expect | not executed | CsvReaderScenarios.FixtureAsWrittenIsRefused | CsvReaderScenarios.FixtureWithAdvocateColumn |
