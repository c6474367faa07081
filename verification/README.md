# Used-car listings: batch cleaning and merge

This project models the cleaning stage of a used-car data pipeline
(`DataAcquisition/usedcars_cleandata.py`). Scraped listing batches are CSV files indexed by
listing URL. Each batch is cleaned as follows:

- its index and headers are normalised;
- it gets the fixed set of main columns;
- free-text fields (price, mileage, power, displacement, weight, emissions, warranty, fuel
  consumption, registration date) are parsed into numbers with regular expressions;
- categorical and boolean columns are recoded (fuel type, body type, certified services,
  single owner, drive);
- it is projected onto the main columns.

The cleaned batches are appended to the full dataset. Rows whose URL is already there are
dropped, keeping the first. Each batch that cleaned is recorded in a ledger, so a later run
skips it. A batch that raises while it is cleaned is skipped. A batch that cannot be read, or
that cleans into a frame with a repeated column, stops the whole run before anything is
written.

The modules follow the script's structure:

- `Strings`: character classes, ASCII lower-casing, `str.strip` with a character set,
  `str.replace`.
- `Patterns`: the fragment of Python regular expressions the script uses. This is literal
  characters, `\d`, `\s` and a character class, with `?`, `*` and `+`. It includes a
  deterministic greedy matcher and `Series.str.extract` (the first group of the leftmost
  match). The matcher is proved equal to a backtracking regex search (leftmost start, then
  the preferred path) for every pattern whose tokens cannot trade characters.
- `Table`: cells (missing, text, number, boolean, date), rows keyed by URL, frames, and the
  main column set.
- `Fields`: the eleven extraction patterns and the cell-level parse of each numeric column.
- `Categories`: `getFuel` and `getCarBody`.
- `Headers`: `edit_index_columns`.
- `Schema`: `add_missing_columns` and `drop_columns`.
- `Clean`: `extract_text_data`, `replace_values` and `clean_data`. Each is a sequence of
  column steps applied to every row, and a batch fails as a whole when a step raises.
- `Targets`: `getTargets`.
- `Merge`: the `__main__` loop, the duplicate drop, the ledger, and the failures that stop
  a run.
- `Samples`: worked field values, such as `€ 12.500` giving 12500 and `5,5 l/100 km (comb`
  giving 5.5.

The script reads the fuel column's companion `Altre_fonti_energetiche` with
`.str.contains('elettr').notnull()`. That is true for every text cell, so the model sets
the fuel to `Ibrida` whenever that cell holds any text. `strip('/annunci/')` strips a
character set, not a prefix, so it also eats those letters from the ends of the slug; the
model does the same.

## Model

| member | source | states |
|---|---|---|
| Strings.Lower | DataAcquisition/usedcars_cleandata.py:179 | lower-casing keeps the length and leaves no ASCII capital |
| Strings.LowerIdempotent | DataAcquisition/usedcars_cleandata.py:179 | lower-casing twice is lower-casing once |
| Strings.ReplaceChar | DataAcquisition/usedcars_cleandata.py:132-137 | replacing `,` by `.` keeps the length, removes every `,`, introduces nothing else, and is the identity when there is no `,` |
| Strings.DeleteChar | DataAcquisition/usedcars_cleandata.py:111 | `replace('.', '')` leaves no `.` and changes nothing without one |
| Strings.DeleteCharKeepsOthers | DataAcquisition/usedcars_cleandata.py:111 | deleting one character keeps the count of every other character |
| Strings.Strip | DataAcquisition/usedcars_cleandata.py:58 | `strip(chars)` returns a middle slice whose cut-off ends consist of set characters and whose own ends are not in the set |
| Strings.StripUnique | DataAcquisition/usedcars_cleandata.py:58 | any slice with those two properties is the stripped string |
| Strings.StripIdempotent | DataAcquisition/usedcars_cleandata.py:58 | stripping twice is stripping once |
| Strings.StripCuts | DataAcquisition/usedcars_cleandata.py:58 | stripping the left then the right end cuts only set characters |
| Patterns.Run | DataAcquisition/usedcars_cleandata.py:93-103 | a class run is maximal: every character in it is in the class and the next one is not |
| Patterns.Step | DataAcquisition/usedcars_cleandata.py:93-103 | one quantified token takes the longest count it can |
| Patterns.GreedyFirst | DataAcquisition/usedcars_cleandata.py:93-103 | the greedy path is lexicographically greatest among all paths, the order a backtracking engine tries them in |
| Patterns.GreedyComplete | DataAcquisition/usedcars_cleandata.py:93-103 | for a no-backtracking token list the greedy matcher succeeds whenever any path exists |
| Patterns.GreedyIffMatches | DataAcquisition/usedcars_cleandata.py:93-103 | the greedy matcher succeeds at a position exactly when the regex matches there, and its path is the preferred one |
| Patterns.Search | DataAcquisition/usedcars_cleandata.py:111 | the search returns the leftmost position where the matcher succeeds, and none when there is none |
| Patterns.Extract | DataAcquisition/usedcars_cleandata.py:111 | an extracted text is the group's text of a complete path through the pattern from some position |
| Patterns.ExtractIsRegexSearch | DataAcquisition/usedcars_cleandata.py:111 | `str.extract` is empty exactly when no position matches, and otherwise gives the group text of the leftmost preferred match |
| Patterns.LeftmostCaptureUnique | DataAcquisition/usedcars_cleandata.py:111 | the leftmost preferred capture is unique |
| Patterns.ExtractIsGroupText | DataAcquisition/usedcars_cleandata.py:111 | the extracted text is a slice of the input matched by the group's tokens |
| Fields.PatternOf | DataAcquisition/usedcars_cleandata.py:93-103 | every integer pattern captures `\d*`, and each unit pattern is digits, spaces and the unit's literal text |
| Fields.Prepared | DataAcquisition/usedcars_cleandata.py:110-130 | deleting dots leaves no dot and changes nothing without one; the warranty's text is taken as it is |
| Fields.IntPatternComplete | DataAcquisition/usedcars_cleandata.py:93-100 | the eight integer patterns cannot trade characters, so greedy matching is the regex semantics for them |
| Fields.ConsumptionComplete | DataAcquisition/usedcars_cleandata.py:101-103 | the same holds for the three consumption patterns |
| Fields.IntCaptureDigits | DataAcquisition/usedcars_cleandata.py:93-100 | every integer pattern captures only digits |
| Fields.IntField | DataAcquisition/usedcars_cleandata.py:110-130 | a non-text cell gives missing; otherwise the result is missing, a non-negative whole number, or the error raised by `astype(float)` on an empty capture |
| Fields.IntFieldIsRegexSearch | DataAcquisition/usedcars_cleandata.py:110-130 | the field is missing exactly when the pattern does not match; it fails exactly when the leftmost capture is empty; otherwise it is the capture's decimal value |
| Fields.DecimalCapture | DataAcquisition/usedcars_cleandata.py:101-103 | a consumption capture is digits, an optional point, then digits |
| Fields.ConsumptionField | DataAcquisition/usedcars_cleandata.py:132-137 | a consumption reading is missing or a non-negative number, and missing for a non-text cell |
| Fields.ConsumptionFieldIsRegexSearch | DataAcquisition/usedcars_cleandata.py:132-137 | the reading is missing exactly when the pattern finds no match after `,` becomes `.`, and otherwise is the value of the leftmost capture |
| Fields.DropBelowTenth | DataAcquisition/usedcars_cleandata.py:146-148 | readings below 0.1 become missing, and every other cell is unchanged |
| Fields.UnitAt | DataAcquisition/usedcars_cleandata.py:94-100 | a field that starts with digits, spaces and the unit extracts exactly those digits |
| Categories.FirstMatch | DataAcquisition/usedcars_cleandata.py:181-198 | the if/elif chain returns one of the rules' categories or `Altro` |
| Categories.FirstMatchIsFirstHit | DataAcquisition/usedcars_cleandata.py:181-198 | the chain returns the category of the first rule whose keyword occurs, and `Altro` exactly when none occurs |
| Categories.Fuel | DataAcquisition/usedcars_cleandata.py:175-200 | the fuel label is one of the six labels, and `Altro` for a non-string |
| Categories.Body | DataAcquisition/usedcars_cleandata.py:203-230 | the body label is one of the nine labels, and `Altro` for a non-string |
| Categories.FuelIsFirstHit | DataAcquisition/usedcars_cleandata.py:175-200 | the fuel is the category of the first fuel keyword the lower-cased text contains |
| Categories.BodyIsFirstHit | DataAcquisition/usedcars_cleandata.py:203-230 | the body is the category of the first body keyword the lower-cased text contains |
| Categories.CaseInsensitive | DataAcquisition/usedcars_cleandata.py:179-207 | texts equal up to ASCII case get the same fuel and body |
| Categories.BenzFirst | DataAcquisition/usedcars_cleandata.py:181-182 | text containing `benz` is petrol whatever else it contains |
| Categories.DieselUnlessPetrol | DataAcquisition/usedcars_cleandata.py:181-186 | `diesel` decides unless a petrol keyword occurs |
| Categories.OffRoadFirst | DataAcquisition/usedcars_cleandata.py:209-212 | `suv` or `fuoristrada` always gives the off-road body |
| Headers.StripKey | DataAcquisition/usedcars_cleandata.py:58 | the index strip is a set strip over the characters of `/annunci/` |
| Headers.StripKeyIdempotent | DataAcquisition/usedcars_cleandata.py:58 | stripping an index twice is stripping it once |
| Headers.StripListingPath | DataAcquisition/usedcars_cleandata.py:58 | a listing path whose slug neither starts nor ends with a set character becomes that slug |
| Headers.StripEatsSlugEnd | DataAcquisition/usedcars_cleandata.py:58 | trailing set characters after the slug are stripped too |
| Headers.DeleteAll | DataAcquisition/usedcars_cleandata.py:61-62 | removing the listed characters keeps only characters that are in the header and not in the list |
| Headers.CleanHeader | DataAcquisition/usedcars_cleandata.py:59-73 | a normalised header has no newline, space or removed punctuation |
| Headers.CleanHeaderIdempotent | DataAcquisition/usedcars_cleandata.py:59-73 | normalising a header twice is normalising it once |
| Headers.SquashIsPerCharacter | DataAcquisition/usedcars_cleandata.py:59-62 | the chain of replaces is one character-by-character map |
| Headers.Rename | DataAcquisition/usedcars_cleandata.py:64-73 | a renamed header is never a key of the table, so renaming twice is renaming once; other headers are unchanged; a clean header stays clean |
| Headers.RenameKeysReachTargets | DataAcquisition/usedcars_cleandata.py:64-73 | each key of the rename table already normalises to its target name |
| Headers.RenameTargetsClean | DataAcquisition/usedcars_cleandata.py:64-71 | the renamed targets are clean and are not keys themselves |
| Headers.EditIndexColumns | DataAcquisition/usedcars_cleandata.py:56-74 | the frame keeps its rows, strips every key, and its columns are the normalised headers |
| Headers.EditIndexColumnsKeepsValues | DataAcquisition/usedcars_cleandata.py:56-74 | a column whose normalised name is unique keeps every row's value |
| Schema.AddMissingColumns | DataAcquisition/usedcars_cleandata.py:83-88 | the columns become the old ones plus the main ones; old values stay and added columns are missing |
| Schema.DropColumns | DataAcquisition/usedcars_cleandata.py:77-81 | the columns become the old ones that are main columns, with their values unchanged |
| Schema.ProjectOntoMain | DataAcquisition/usedcars_cleandata.py:77-88 | adding and then dropping gives exactly the main columns, with old values or missing |
| Clean.AnnoCell | DataAcquisition/usedcars_cleandata.py:105 | a date parse that fails raises; a missing date stays missing |
| Clean.OwnerCell | DataAcquisition/usedcars_cleandata.py:159 | a count is true below 1.1, missing is false, and text raises |
| Clean.DriveCell | DataAcquisition/usedcars_cleandata.py:162 | only text containing `4x4` changes |
| Clean.HybridCell | DataAcquisition/usedcars_cleandata.py:152 | any text in the other-energy cell makes the fuel `Ibrida`; otherwise the fuel stays |
| Clean.MapRows | DataAcquisition/usedcars_cleandata.py:105-162 | a column step succeeds exactly when it succeeds on every row, and it fails with the first row's error |
| Clean.Derive | DataAcquisition/usedcars_cleandata.py:105-162 | reading an absent column raises; otherwise the target column is added and every row gets its own value |
| Clean.Apply | DataAcquisition/usedcars_cleandata.py:90-164 | a sequence of steps adds exactly the target columns and keeps the row keys |
| Clean.ApplyNeeds | DataAcquisition/usedcars_cleandata.py:90-164 | a step that reads a column nobody has written makes the whole sequence raise |
| Clean.ApplyHolds | DataAcquisition/usedcars_cleandata.py:90-164 | a per-column invariant that each step keeps holds after the sequence |
| Clean.ApplyIsRowFold | DataAcquisition/usedcars_cleandata.py:90-164 | column-at-a-time application equals applying the steps row by row |
| Clean.RowFoldReads | DataAcquisition/usedcars_cleandata.py:90-164 | a step whose source no earlier step wrote sees the original cell |
| Clean.ExtractTextData | DataAcquisition/usedcars_cleandata.py:90-139 | extraction adds exactly its fourteen parsed columns, keeps the rows and their keys, and raises without `Potenza` or the consumption column |
| Clean.ExtractTextDataRows | DataAcquisition/usedcars_cleandata.py:105-137 | every parsed column holds its step's value on the original row |
| Clean.ExtractPower | DataAcquisition/usedcars_cleandata.py:120-123 | both power columns are parsed from the same original `Potenza` cell |
| Clean.ExtractReadings | DataAcquisition/usedcars_cleandata.py:132-137 | the three consumption readings are parsed from the same original cell |
| Clean.ExtractTextDataValues | DataAcquisition/usedcars_cleandata.py:90-139 | every parsed column holds a value of its kind: a date, a whole number or a non-negative reading |
| Clean.ReplaceRowFold | DataAcquisition/usedcars_cleandata.py:142-164 | the replacement steps on one row equal the row-level reference definition |
| Clean.ReplaceRow | DataAcquisition/usedcars_cleandata.py:142-164 | a row raises exactly when its owner cell is text; otherwise each recoded column is its cell-level function of the original row |
| Clean.ReplaceValuesRows | DataAcquisition/usedcars_cleandata.py:142-164 | every row of the recoded frame is the reference row |
| Clean.ReplaceValues | DataAcquisition/usedcars_cleandata.py:142-164 | recoding adds only its eight recoded columns, keeps the rows and their keys, and raises without `Altre_fonti_energetiche` |
| Clean.ReplaceValuesValues | DataAcquisition/usedcars_cleandata.py:142-164 | recoded columns hold fuel labels, body labels, booleans or readings of at least 0.1, and the parsed columns keep their kinds |
| Clean.Pipeline | DataAcquisition/usedcars_cleandata.py:169-172 | extraction, recoding and the projection leave only main columns (all of them when the input had them), keep the rows and their keys, and raise without any of the three read-only source columns |
| Clean.CleanData | DataAcquisition/usedcars_cleandata.py:167-173 | a cleaned batch has exactly the main columns and one row per input row, keyed by the stripped URL; a batch without one of the three read-only source columns, or with a repeated column read through `.str`, raises |
| Clean.SeriesReadIsSources | DataAcquisition/usedcars_cleandata.py:105-152 | the columns read through `.str` or `to_datetime` are exactly the sources of those statements |
| Clean.CleanDataIsPipeline | DataAcquisition/usedcars_cleandata.py:167-173 | cleaning is the composition of the five stages |
| Clean.CleanDataValues | DataAcquisition/usedcars_cleandata.py:167-173 | every main column of a cleaned batch holds a value of its kind |
| Clean.CleanedReading | DataAcquisition/usedcars_cleandata.py:132-148 | a cleaned consumption reading is missing or at least 0.1 |
| Clean.Duplicate | DataAcquisition/usedcars_cleandata.py:56-74 | a reported duplicate is a used name occurring twice; none is reported only when no used name repeats |
| Targets.Sort | DataAcquisition/usedcars_cleandata.py:48 | the listing is sorted and a permutation of the input |
| Targets.SortIsTheSortedPermutation | DataAcquisition/usedcars_cleandata.py:48 | any sorted permutation of the listing is the sort |
| Targets.Filter | DataAcquisition/usedcars_cleandata.py:48-51 | a list comprehension keeps exactly the members that satisfy its test |
| Targets.FilterKeepsSorted | DataAcquisition/usedcars_cleandata.py:48-51 | filtering keeps sortedness |
| Targets.FilterTwice | DataAcquisition/usedcars_cleandata.py:48-51 | two filters in a row are one filter by the conjunction |
| Targets.Join | DataAcquisition/usedcars_cleandata.py:39 | joining with the data directory keeps the `.csv` suffix, and an absolute name replaces the directory |
| Targets.GetTargets | DataAcquisition/usedcars_cleandata.py:36-53 | no returned batch is in the ledger |
| Targets.ExplicitTarget | DataAcquisition/usedcars_cleandata.py:38-45 | a named target is taken exactly when it is an existing `.csv` file other than the full dataset and not yet merged |
| Targets.AcceptedIsNotFullDataset | DataAcquisition/usedcars_cleandata.py:41 | an accepted name is never the full dataset's file name |
| Targets.ListingTargets | DataAcquisition/usedcars_cleandata.py:46-51 | without a name, the targets are exactly the unmerged `.csv` entries other than the full dataset, in sorted order |
| Targets.MoreRecorded | DataAcquisition/usedcars_cleandata.py:51 | a longer ledger removes exactly the newly recorded batches from the targets |
| Targets.TargetsDistinct | DataAcquisition/usedcars_cleandata.py:36-53 | a directory listing each name once yields each target once |
| Merge.DropDuplicates | DataAcquisition/usedcars_cleandata.py:278 | the duplicate drop keeps only rows it was given and never adds rows |
| Merge.DropDuplicatesKeys | DataAcquisition/usedcars_cleandata.py:278 | after the duplicate drop every URL occurs once and no URL is lost |
| Merge.DropDuplicatesKeepsFirst | DataAcquisition/usedcars_cleandata.py:278 | the rows kept are exactly the first occurrences of their URLs |
| Merge.EarlierRowsWin | DataAcquisition/usedcars_cleandata.py:275-278 | for a URL already in the dataset, its old row survives |
| Merge.DropDuplicatesIdempotent | DataAcquisition/usedcars_cleandata.py:278 | the duplicate drop leaves a frame with unique URLs unchanged |
| Merge.Process | DataAcquisition/usedcars_cleandata.py:266-275 | the loop only appends: the ledger and the dataset keep what they held, and every name it records is a target that cleaned |
| Merge.Merge1 | DataAcquisition/usedcars_cleandata.py:266-275 | a batch that raises changes nothing; one that cleans is recorded and its rows are appended |
| Merge.ProcessAppends | DataAcquisition/usedcars_cleandata.py:266-275 | the loop appends exactly the batches that cleaned to the ledger and exactly their rows to the dataset, in order |
| Merge.FailuresContributeNothing | DataAcquisition/usedcars_cleandata.py:269-274 | dropping the batches that raise from the target list changes nothing |
| Merge.Run | DataAcquisition/usedcars_cleandata.py:233-286 | a written dataset has one row per URL, and the written ledger holds only earlier names and targets of this run |
| Merge.RunWrites | DataAcquisition/usedcars_cleandata.py:249-286 | a run does nothing exactly when it has no targets and stops exactly when a target cannot be read or cleans with a repeated kept column; otherwise the ledger gains the cleaned batches, the URLs are unique, and old rows win |
| Merge.LedgerStaysDistinct | DataAcquisition/usedcars_cleandata.py:259-286 | a ledger without repeats stays without repeats |
| Merge.NextRunRetriesFailures | DataAcquisition/usedcars_cleandata.py:259-286 | a next run over the same directory, starting from the written ledger, takes exactly the targets of this run that raised |
| Samples.MileageSample | DataAcquisition/usedcars_cleandata.py:110-112 | `45.000 km` gives mileage 45000 |
| Samples.PriceSample | DataAcquisition/usedcars_cleandata.py:114-116 | `€ 12.500` gives price 12500 |
| Samples.PowerKwSample | DataAcquisition/usedcars_cleandata.py:120-121 | `120 kW (163 CV)` gives 120 kW |
| Samples.PowerCvSample | DataAcquisition/usedcars_cleandata.py:122-123 | `120 kW (163 CV)` gives 163 CV |
| Samples.ConsumptionAt | DataAcquisition/usedcars_cleandata.py:132-137 | a field starting with `d.e`, a space and the cycle's words captures `d.e` |
| Samples.ConsumptionSample | DataAcquisition/usedcars_cleandata.py:132-133 | `5,5 l/100 km (comb` gives a combined reading of 5.5 |
| Samples.PriceMissingWithoutEuro | DataAcquisition/usedcars_cleandata.py:114-116 | a price text without `€` parses to missing |
| Samples.CvMissingWithoutParenthesis | DataAcquisition/usedcars_cleandata.py:122-123 | a power text without `(` gives a missing CV value |

## Left out

- File system, CSV and JSON I/O: `initWSCleaner`, `read_csv`, `to_csv` and `json` become
  parameters and values. A run's inputs are the command-line target and refresh flag, the
  directory listing, an `isfile` test, the batch reader and the date parser. The reader
  gives no batch when `read_csv` raises (an unreadable file, or one without a `url`
  column), and the run then stops. Its output is
  the new ledger and the new rows.
- Command-line parsing, the unused `--debug` flag and all printing are left out. None of
  them changes the data.
- `pd.to_datetime(format="%m/%Y")` is a parameter `parse` that may fail. Its calendar
  arithmetic is not modelled.
- Column order is left out; a frame's columns are a set. `main_columns` is sorted in the
  script, which matters only for the written file.
- `float64` values are modelled as unbounded reals. A parsed integer field is exact in the
  model, although the script rounds it once it exceeds 2^53.
- pandas infers column types. A column with no text cell at all (only numbers and/or empty
  cells, for instance `Acconto` or `Altre_fonti_energetiche` empty on every row) is read as
  numbers, and `.str` then raises for the whole column, so the batch is skipped and not
  recorded. The model works cell by cell: such cells become missing, the batch cleans and is
  recorded. A number in a column that also holds text gives missing, as pandas does.
- The `regex` module import is unused by the extraction. `str.extract` uses Python's `re`,
  and only the syntax the eleven patterns use is modelled.
- `\d` is ASCII digits only, and `lower()` folds ASCII letters only. Non-ASCII digits and
  capitals are left out; the keywords and units are ASCII.
- pandas keeps duplicate column names, so a later column access returns a frame, not a
  series. The model makes a batch raise, and be skipped, when a column read through `.str`
  or `to_datetime` appears twice. A repeated main column that no statement reads that way
  survives `clean_data`, and the model stops the run at `pd.concat`. A repeated main column
  that a statement reads or writes some other way (fuel, body, services, owner, drive, the
  readings) may instead raise inside `clean_data` in some pandas versions, which would skip
  only that batch; the model follows the first behaviour. Repeated columns outside the main
  set are dropped with the rest.
- Targets.GetTargets: its contract states only that no target is in the ledger. The full
  meaning is stated by Targets.ExplicitTarget and Targets.ListingTargets.
- Clean.Apply: its contract states the shape of the result only. The values are stated by
  Clean.ApplyHolds and Clean.ApplyIsRowFold.
- Merge.RunWrites: the written dataset is described by its URL set and by the rule that old
  rows win. The order of new rows follows Merge.ProcessAppends and
  Merge.DropDuplicatesKeepsFirst.
