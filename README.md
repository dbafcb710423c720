# Sea-Bird bottle-file parser

A Dafny model of the part of `Ship_data/bottle_processing.py` that turns one
CTD bottle file (`.btl`) into a per-cast summary. The file's lines are
stripped and sorted into three groups: header lines (starting with `*` or
`#`), data lines (starting with a digit) and column-header lines (anything
else).

- **Header.** The header lines give the start time, source hex file, start
  latitude, start longitude and cruise. Each is found by a case-insensitive
  marker, and the markers are tested in a fixed priority order.
- **Column names.** The column-header lines are tokenised on whitespace.
  The tokens at one position are joined into that position's column name.
- **Data lines.**
  - Each `(avg)` line appends its values, one per position.
  - Each `(sdev)` line appends its first value (the time of day) to position 1.
  - Position 1 is then folded pairwise into `"date time"` strings.
- **The summary.** The value lists are keyed by column name and become a
  data frame. The header values and a three-character cast number are set
  on every row. The summary file name is derived from the bottle file's name.

Two cell helpers that the script applies later, when it merges in the
discrete-sample sheet, are modelled too:

- `reformat_cruise_id`;
- `fill_flags`.

The modules follow the script's stages:

| module | file | models |
|---|---|---|
| `PyText` | `pytext.dfy` | the Python string operations used: `strip`, `split()`, `re.split` on literal alternatives, `join`, `in`, `lower`, `zfill`, `index`, slicing, `str(int)` |
| `Classify` | `classify.dfy` | the line classifier loop |
| `Header` | `header.dfy` | `parse_header` |
| `Layout` | `layout.dfy` | the `column_dict` loop |
| `Rows` | `rows.dfy` | the `data_dict` loop, the date/time pairing, the `results` loop |
| `Naming` | `naming.dfy` | the cast number and the summary file name |
| `Discrete` | `discrete.dfy` | `reformat_cruise_id` and `fill_flags` |
| `BottleFile` | `bottle.dfy` | one pass of the per-file loop, end to end |

`Wrappers` and `ParseErrors` (`wrappers.dfy`) hold `Option`, `Result` and
the exceptions that can stop the script:

- `MissingSegment`: an `IndexError` from a header line without a second
  segment;
- `BadTimestamp`: the timestamp parser rejects the value;
- `MissingColumn`: a `KeyError` in `data_dict`;
- `NoDot`: `filename.index('.')` raises `ValueError`;
- `UnequalColumns`: `DataFrame.from_dict` gets lists of different lengths.

The loops the script runs are Dafny methods with `while` loops:
`ClassifyLines`, `ParseHeader`, `BuildLayout`, `AppendAvg`, `BuildColumns`
and `BuildTable`. Two more methods have no loop of their own and call
these: `AddDataLine` is one iteration of the row loop, and `ParseCastFile`
is the body of the per-file loop.

Each method is proved equal to a specification function. For
`ClassifyLines`, `ParseHeader`, `BuildLayout`, `BuildColumns` and
`BuildTable` it is a recursive fold (`OfKind`, `HeaderFrom` via `HeaderOf`, `LayoutOf`,
`RowsFrom`, `TableOf`). For `AppendAvg` and `AddDataLine` it is the
per-line `AddLine`, and for `ParseCastFile` the per-file `CastFileSpec`.
The properties are proved as lemmas about those functions.

The timestamp parse and reformat (`pd.to_datetime(...).strftime(...)`) is a
parameter `toStamp: string -> Option<string>`, where `None` means the parse
raised.

Three details of the code that the model keeps as written:

- **Cast number.** The cast is taken before the *first* `.` of the file
  name (`filename.index('.')`), not the last one.
- **`(sdev)` lines.** They *append* to position 1; they do not overwrite it.
  The pairing then joins the `(avg)` line's date with the `(sdev)` line's
  time.
- **Splitting values.** Data values are split on exactly two spaces or a
  tab, not on runs of two or more spaces. A run of three spaces leaves a
  space at the head of the next value.

## Model

| member | source | states |
|---|---|---|
| `PyText.Strip` | Ship_data/bottle_processing.py:123 | the stripped line is no longer than the original and neither starts nor ends with whitespace |
| `PyText.StripPadded` | Ship_data/bottle_processing.py:123 | stripping text padded on both sides with whitespace gives back exactly the padded text |
| `PyText.TokensOfSpaced` | Ship_data/bottle_processing.py:145 | `str.split()` on any text made of words separated by non-empty runs of whitespace, with optional whitespace at either end, yields exactly those words in order |
| `PyText.TokensOfJoin` | Ship_data/bottle_processing.py:145-147 | splitting words joined by single spaces gives back the same words |
| `PyText.SplitJoin` | Ship_data/bottle_processing.py:96 | splitting on a separator and joining with it restores the text, so no character is lost |
| `PyText.SplitWeave` | Ship_data/bottle_processing.py:155 | `re.split` on an alternation loses nothing: there is one consumed separator fewer than segments, each one of the alternatives, and putting them back between the segments rebuilds the line |
| `Rows.ValuesThreeSpaces` | Ship_data/bottle_processing.py:155 | for any two non-empty values without spaces or tabs, a run of three spaces between them splits after the first two, so the third space starts the next value: `a + "   " + b` gives `a` and `" " + b` |
| `PyText.SplitSegmentsFree` | Ship_data/bottle_processing.py:93 | no segment returned by `re.split` contains any of the pattern's alternatives |
| `PyText.SplitLastNonEmpty` | Ship_data/bottle_processing.py:160 | when the text's last character belongs to no separator, the last segment is non-empty |
| `PyText.ZFill` | Ship_data/bottle_processing.py:184 | result length is max(width, length); a leading sign is kept in front; the rest of the text ends the result; every position in between is '0' |
| `PyText.ZFillWide` | Ship_data/bottle_processing.py:869 | padding text already at least `width` long leaves it unchanged |
| `PyText.IndexOf` | Ship_data/bottle_processing.py:183 | `None` exactly when the character is absent; otherwise the position of its first occurrence |
| `Classify.ClassifyLines` | Ship_data/bottle_processing.py:129-137 | the three lists are exactly the header, data and column-header lines of the file, each in file order |
| `Classify.OfKindAppend` | Ship_data/bottle_processing.py:129-137 | classification preserves order: the lines of one kind from a concatenation are those of the parts, concatenated |
| `Classify.ClassifyPartition` | Ship_data/bottle_processing.py:129-137 | the three lists together hold every line of the file exactly once (multiset equality) |
| `Classify.ClassifyCount` | Ship_data/bottle_processing.py:129-137 | the three lists' lengths add up to the number of lines |
| `Classify.OfKindMember` | Ship_data/bottle_processing.py:129-137 | a line is in the list of kind k if and only if it is a line of the file and has kind k |
| `Header.ParseHeader` | Ship_data/bottle_processing.py:78-110 | the loop returns the dictionary (or the exception) given by folding the per-line step over the header lines |
| `Header.MarkerPriority` | Ship_data/bottle_processing.py:92-106 | a line is attributed to marker m if and only if it mentions m and none of the markers tested before m |
| `Header.StepStores` | Ship_data/bottle_processing.py:92-106 | a marker line succeeds exactly when its value does; it then sets that marker's key to the value and leaves every other key unchanged |
| `Header.ValueOfSegment` | Ship_data/bottle_processing.py:93-105 | the value is missing exactly when the split has no second segment; otherwise it is the stripped second segment, or for the start time the parser's output, failing exactly when the parser rejects the segment |
| `Header.StepIgnores` | Ship_data/bottle_processing.py:107-108 | a line mentioning no marker leaves the dictionary unchanged |
| `Header.HeaderKeysFixed` | Ship_data/bottle_processing.py:90-110 | the parsed dictionary has only the five known keys |
| `Header.StepOverlay` | Ship_data/bottle_processing.py:91-106 | one step on any dictionary is that dictionary overlaid with the step's result on an empty one |
| `Header.HeaderFromOverlay` | Ship_data/bottle_processing.py:90-110 | parsing from a non-empty dictionary overlays the result from an empty one, later keys winning; failure does not depend on the start |
| `Header.HeaderFromConcat` | Ship_data/bottle_processing.py:91-108 | parsing two blocks of lines in a row is parsing the first, then the second from its result |
| `Header.HeaderTwice` | Ship_data/bottle_processing.py:90-110 | parsing the header block twice over gives the same dictionary as parsing it once |
| `Layout.BuildLayout` | Ship_data/bottle_processing.py:143-149 | the nested loop computes the layout fold; its keys are exactly the positions 0 up to the widest line's token count |
| `Layout.LayoutNames` | Ship_data/bottle_processing.py:143-149 | a position is named if and only if some column-header line has a token there; its name is the space-join of the tokens at that position, in line order |
| `Layout.LayoutKeys` | Ship_data/bottle_processing.py:143-149 | the named positions are exactly 0 up to the widest line's token count |
| `Layout.ColumnNameTokens` | Ship_data/bottle_processing.py:143-149 | splitting a column name on whitespace gives back the tokens that formed it, in line order |
| `Rows.ValuesNonEmpty` | Ship_data/bottle_processing.py:159-161 | a line ending in `(sdev)` or `(avg)` always has a value, so `values[0]` cannot raise |
| `Rows.AvgStep` | Ship_data/bottle_processing.py:155-158 | when every value's position exists, an `(avg)` line appends its i-th value to position i for each of its values, and changes nothing else |
| `Rows.SdevStep` | Ship_data/bottle_processing.py:159-161 | when position 1 exists, an `(sdev)` line appends its first value to position 1 only |
| `Rows.OtherStep` | Ship_data/bottle_processing.py:162-163 | any other data line changes nothing |
| `Rows.AppendAvg` | Ship_data/bottle_processing.py:156-158 | the inner loop appends each value to its position; it raises KeyError at the first position without a column |
| `Rows.AddDataLine` | Ship_data/bottle_processing.py:155-163 | one iteration of the row loop has the effect given by the per-line specification |
| `Rows.BuildColumns` | Ship_data/bottle_processing.py:152-163 | the row loop, started from empty lists at the layout's positions, computes the fold of the per-line step |
| `Rows.RowsFromContents` | Ship_data/bottle_processing.py:154-163 | the row loop succeeds if and only if every data line finds its positions; then each position holds its previous list followed by the values the lines give it, and no position is added or removed |
| `Rows.FirstMissing` | Ship_data/bottle_processing.py:157-158 | the KeyError position is the first one without a column |
| `Rows.EmptyColumns` | Ship_data/bottle_processing.py:152 | `data_dict` starts with exactly the layout's positions |
| `Rows.AvgRows` | Ship_data/bottle_processing.py:155-158 | position 0 receives exactly one value per `(avg)` line |
| `Rows.PairDateTime` | Ship_data/bottle_processing.py:166 | the paired list has half the length (rounded down), and its j-th item is items 2j and 2j+1 joined by a space |
| `Rows.JoinDateTimeEffect` | Ship_data/bottle_processing.py:166 | the pairing fails if and only if there is no position 1; it halves position 1 and leaves every other position and the key set unchanged |
| `Rows.BuildTable` | Ship_data/bottle_processing.py:170-173 | the results loop builds the name-keyed table, visiting positions in ascending (insertion) order |
| `Rows.TableKeys` | Ship_data/bottle_processing.py:170-173 | the table has an entry for every column name and no other entry |
| `Rows.TableLastWins` | Ship_data/bottle_processing.py:170-173 | a name that no later position repeats maps to its own position's list (later duplicates overwrite earlier ones) |
| `Naming.CastAsWritten` | Ship_data/bottle_processing.py:183-184 | the slice and `zfill` as written: a cast if and only if the name has a dot, always three characters; equal to the intended cast when at least three characters precede the dot or the name is shorter than three; "000" when fewer than three characters precede the dot of a longer name |
| `Naming.CastChars` | Ship_data/bottle_processing.py:183 | the cast characters are the (up to) three characters just before the dot |
| `Naming.Cast` | Ship_data/bottle_processing.py:183-184 | there is a cast if and only if the name has a dot; it has three characters; three characters before the dot are kept as they are, fewer unsigned ones get leading zeros |
| `Naming.CastAgrees` | Ship_data/bottle_processing.py:183-184 | with at least three characters before the dot, the slice as written equals the intended cast |
| `Naming.CastShortName` | Ship_data/bottle_processing.py:183-184 | for "ab.btl" the slice as written gives "000" while the intended cast is "0ab" |
| `Naming.OutName` | Ship_data/bottle_processing.py:191 | the summary name is the file name up to its first dot (all of it if there is none) followed by ".sum" |
| `Naming.FirstSegment` | Ship_data/bottle_processing.py:191 | the first segment of a split on "." is the text before the first dot |
| `Discrete.ReformatCruiseId` | Ship_data/bottle_processing.py:828-837 | an identifier containing "-A", "-B" or "-C" (tested in that order) becomes "AR-18A", "AR-18B" or "AR-18C"; any other is returned unchanged |
| `Discrete.CanonicalHasNoMarker` | Ship_data/bottle_processing.py:829-834 | no canonical "AR-18" name contains a dash followed by a capital letter |
| `Discrete.ReformatIdempotent` | Ship_data/bottle_processing.py:828-837 | normalising an identifier twice gives what normalising it once does |
| `Discrete.FillFlags` | Ship_data/bottle_processing.py:861-869 | the missing-value marker and boolean-looking cells are returned as they are; any other cell becomes its text zero-padded to 16, sign first, digits last |
| `Discrete.FilledIsPlain` | Ship_data/bottle_processing.py:861-869 | a padded flag is at least 16 characters long, so it is neither the marker nor boolean text |
| `Discrete.FillFlagsIdempotent` | Ship_data/bottle_processing.py:861-869 | applying `fill_flags` twice gives what applying it once does |
| `Discrete.IntFlagPadded` | Ship_data/bottle_processing.py:861-869 | a non-negative integer flag of at most 16 digits becomes its digits behind leading zeros, 16 characters in all |
| `Discrete.NegativeFlagPadded` | Ship_data/bottle_processing.py:861-869 | a negative integer flag keeps its minus sign in front of the zeros |
| `BottleFile.StripLines` | Ship_data/bottle_processing.py:123 | one stripped line per raw line, in order |
| `BottleFile.ParseCastFile` | Ship_data/bottle_processing.py:123-191 | the per-file loop body gives the summary (or the exception) that the composition of the stage specifications gives |
| `BottleFile.CastFileHeader` | Ship_data/bottle_processing.py:129-140 | a successful run parsed its header lines into a dictionary with only the five known keys, and went on with its column-header and data lines |
| `BottleFile.AssembleStages` | Ship_data/bottle_processing.py:143-176 | a successful run passed the row loop and the pairing, and every layout position has a value list |
| `BottleFile.AssembleShape` | Ship_data/bottle_processing.py:176-184 | a successful summary keeps the parsed header and has a three-character cast; its lists all have the frame's row count |
| `BottleFile.AssembleColumn` | Ship_data/bottle_processing.py:143-176 | a column whose name no column further right repeats holds exactly the values the data lines give its position, with column 1 paired into "date time" strings |
| `BottleFile.AssembleRows` | Ship_data/bottle_processing.py:152-176 | when the first column's name is not repeated, the frame has one row per `(avg)` line |
| `BottleFile.SummariseFacts` | Ship_data/bottle_processing.py:176-184 | the data-frame step keeps the header, needs a dot in the name, and yields lists of one length; its cast is the intended one, which is the one the code writes whenever at least three characters precede the dot |
| `BottleFile.SummariseColumn` | Ship_data/bottle_processing.py:170-176 | the frame stores, under a name no later position repeats, that position's list |
| `BottleFile.JoinedColumn` | Ship_data/bottle_processing.py:152-166 | after the row loop and the pairing, every layout position holds its values from the data lines, with position 1 paired |
| `BottleFile.RecordContents` | Ship_data/bottle_processing.py:179-188 | every row has all the columns, every header key and "Cast"; header values override columns of the same name; "Cast" is the file's cast |

## Left out

- File I/O: `os.listdir`, reading the file, `df.to_csv`. The model starts
  from the file's lines and name and ends with the summary it would write.
- The `.btl` filter on the directory listing. A name without a dot is
  still modelled as the `ValueError` of `index`.
- Timestamp parsing: `pd.to_datetime` and `strftime` are the parameter
  `toStamp`. Their formats are not modelled.
- `float(line[0])` is modelled as "an ASCII decimal digit". The other
  Unicode decimal digits that Python's `float` accepts are not modelled.
- `str.lower` is modelled on ASCII letters only. This is exact for the
  ASCII markers the header parser and `fill_flags` compare against.
- The data frame's column order and dtypes, and pandas' handling of a
  frame with no columns beyond the row count. `Record` gives one row as a
  name-to-text map.
- The rest of the script: the salinity, oxygen, chlorophyll, nutrient and
  carbon sheets, the merges, the column renaming and the final aggregation.
  Of the merge step, only its two cell helpers are modelled.
- `BottleFile.ParseCastFile` (and `Summarise`, `Assemble`, `CastFileSpec`):
  the cast is the corrected `Naming.Cast`, not the slice as written. For a
  name with fewer than three characters before its first dot, in a name of
  three or more characters, the code writes "000" (`Naming.CastAsWritten`)
  where the model writes the zero-padded characters, for example "0ab" for
  "ab.btl". See "## Findings".
- `Discrete.ReformatCruiseId`: only text cells are modelled. A cell that
  is not text (a blank spreadsheet cell read as NaN, or a number) makes
  `'-A' in x` raise `TypeError`; neither such cells nor that error are
  modelled.
- `Discrete.FillFlags`: `str` of a float cell is carried as given text,
  because Python's float formatting is not modelled.
- State left behind by a raised exception (for example, values already
  appended before a `KeyError`) is not modelled. The exception ends the
  script's run.

## Findings

| source | as written | input that shows it | evidently intended | confidence | as-written member | corrected member |
|---|---|---|---|---|---|---|
| Ship_data/bottle_processing.py:183-184 | the slice `filename[filename.index('.')-3:filename.index('.')]` has a negative start when fewer than three characters precede the dot, and Python wraps that start around to the end of the name | file name "ab.btl": the slice is `filename[-1:2]`, which is empty, so the cast becomes "000" | the up-to-three characters before the dot, zero-padded: "0ab" | not executed | `Naming.CastShortName` | `Naming.Cast` |
