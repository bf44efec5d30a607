# funannotate GFF <-> JSON converters, modelled in Dafny

The repository holds two small converters between GFF3 feature lines and a JSON
document of feature records:

- `funannotate_gff_to_json` reads a tab-separated file. It skips the first line
  and demands exactly nine columns. It copies columns 1-8 into a record, and
  parses column 9 (`key=value` segments separated by `;`) into an
  insertion-ordered attribute map.
- `funannotate_json_to_gff` writes each record back as one tab-separated line.
  The attribute map becomes `key=value` tokens joined by `;`. The file starts
  with `#gff-version 3`.

The model is pure functions over immutable values, in these modules:

- `Wrappers`: `Option` and `Result`.
- `Text`: Python's `str.split`, `str.join` and `split("=", 1)` on one-character
  separators, with their inverse lemmas.
- `Decimal`: the digit strings pandas reads as integers, and Python's `str(n)`
  for a non-negative `n`.
- `Schema`: the attribute map, kept as a sequence of pairs so that order is
  kept. It also holds `Record` (what the reader builds), `Entry` (what the
  writer reads, where any key may be absent) and the error kinds.
- `GffToJson`: the reader. The attribute loop is modelled exactly as written,
  including the stale `k, v` pair described below.
- `JsonToGff`: the writer.
- `RoundTrip`: how the two compose, in both directions.
- `Scenarios`: worked examples: the segment-level behaviours, one short feature
  line read and written, and the record shown in the reader's docstring
  written and read back.

The reader's input is the file already split into lines and each line into
tab-separated fields. The first line is included, since it is skipped whatever
it holds. The writer's output is the whole file text.

### The stale attribute pair

One might expect a segment without `=` to be reported and dropped. The loop
instead stores the last pair again, and the model follows the code.
`scripts/funannotate_gff_to_json.py:64-68` catches the failed unpacking, prints
the segment, and then still executes `container[i]["attributes"][k] = v`. The
names `k` and `v` are locals of the whole function, so this line stores
whatever pair was unpacked last:

- **Same record.** If that pair came from the same record, the store writes the
  same value again and the map does not change, as in
  `ID=g1;BADSEGMENT;Name=n1` (`Scenarios.MalformedSegmentExample`).
- **Earlier record.** If it came from an earlier record, that record's last
  attribute leaks into this one (`GffToJson.PreviousPairLeaks`,
  `Scenarios.LeakExample`).
- **No pair yet.** If no pair has been unpacked yet, the function dies with
  an unbound local and writes nothing (`GffToJson.UnboundPairAborts`). The
  model reports this as `Err(UnboundAttribute(segment))`.

The model threads the pair through the parse as `last`. The printed
diagnostics become a `warnings` list.

## Model

| member | source | states |
|---|---|---|
| Text.Split | scripts/funannotate_gff_to_json.py:58 | `split(";")` always yields at least one part, and no part holds the separator |
| Text.SplitFirst | scripts/funannotate_gff_to_json.py:65 | `split("=", 1)` unpacks into two names exactly when the segment holds `=`; the key then holds no `=`, and key, `=` and value rebuild the segment |
| Text.SplitOfJoin | scripts/funannotate_json_to_gff.py:46 | joining parts that are free of the separator and splitting again gives the parts back |
| Text.Join | scripts/funannotate_json_to_gff.py:46 | `c.join(parts)`: an empty list gives `""`; otherwise the text starts with the first part, followed by the separator when there are more. Its inverse with `Split` is stated by `SplitOfJoin` and `JoinOfSplit` |
| Text.JoinOfSplit | scripts/funannotate_gff_to_json.py:58 | splitting a string and joining again gives the string back |
| Text.SplitFirstOfJoined | scripts/funannotate_gff_to_json.py:65 | a token `k=v` whose key holds no `=` splits back into `k` and `v`, whatever `v` holds |
| Decimal.Str | scripts/funannotate_json_to_gff.py:52-53 | `str(n)` is canonical decimal text that starts with `0` only for zero |
| Decimal.ValueOfStr | scripts/funannotate_json_to_gff.py:52-53 | reading the text `str(n)` back as a number gives `n` |
| Decimal.ValueOf | scripts/funannotate_gff_to_json.py:50-51 | the integer pandas reads from a digit string is zero exactly when every digit is `0`; `ValueOfStr` and `StrOfValue` make it the inverse of `str` |
| Decimal.ZeroPrefix | scripts/funannotate_gff_to_json.py:50-51 | leading zeros do not change the value read from a digit string |
| Decimal.StripZeros | scripts/funannotate_gff_to_json.py:50-51 | every digit string is the `str` of its value after some leading zeros, all but the last one when the value is zero |
| Decimal.StrOfValue | scripts/funannotate_gff_to_json.py:50-51 | a digit string without superfluous leading zeros, read as a number and written with `str`, is unchanged |
| Schema.Lookup | scripts/funannotate_gff_to_json.py:68 | a key is found exactly when it is in the map, and what is found is paired with it in the map |
| Schema.Put | scripts/funannotate_gff_to_json.py:68 | after `attributes[k] = v`, `k` maps to `v` and every other key maps to what it did before |
| Schema.PutAppendsNewKey | scripts/funannotate_gff_to_json.py:68 | storing a new key appends the pair at the end of the insertion order |
| Schema.PutKeepsKeyOrder | scripts/funannotate_gff_to_json.py:68 | storing a key already present replaces its value in place: same length, same keys in the same positions |
| Schema.PutSameValue | scripts/funannotate_gff_to_json.py:68 | storing the value a key already has leaves the map unchanged |
| Schema.PutKeySet | scripts/funannotate_gff_to_json.py:68 | the keys after a store are the keys before plus the stored key |
| Schema.PutKeepsKeysUnique | scripts/funannotate_gff_to_json.py:68 | a map whose keys are unique keeps them unique after a store |
| Schema.ToEntry | scripts/funannotate_gff_to_json.py:46-59 | the entry written for a record holds all nine keys, so the writer's `get` never falls back to `""`, and its `attributes` is exactly the record's map |
| GffToJson.Step | scripts/funannotate_gff_to_json.py:60-68 | one segment: an empty one changes nothing. A segment without `=` fails exactly when no pair has been unpacked yet, and then names that segment. Otherwise the map keeps unique keys and a pair is stored: for a segment with `=`, its `SplitFirst` pair, which is also carried on, with no diagnostic; for one without, the carried pair, with the segment appended to the diagnostics. The stored key then maps to the stored value and every other key keeps its value |
| GffToJson.ParseSegments | scripts/funannotate_gff_to_json.py:60-68 | the loop over the segments keeps keys unique, only adds diagnostics, and fails only with an unbound attribute |
| GffToJson.ParseAttributes | scripts/funannotate_gff_to_json.py:57-68 | an attribute column parses, from an empty map, to a map with unique keys; earlier diagnostics are kept |
| GffToJson.RecordOf | scripts/funannotate_gff_to_json.py:46-59 | the record holds columns 1-8 in order, coordinates as numbers where the column is numeric, and exactly the map it is given |
| GffToJson.ConvertRows | scripts/funannotate_gff_to_json.py:45-68 | the outer loop yields one record per data row, fails only on an unbound attribute, and keeps earlier diagnostics |
| GffToJson.ConvertRowsCons | scripts/funannotate_gff_to_json.py:45-68 | the records of a table are the first row's record followed by the records of the rest, parsed with the pair the first row left behind |
| GffToJson.RowsFromColumns | scripts/funannotate_gff_to_json.py:45-59 | each record holds its own row's first eight columns and a map with unique keys |
| GffToJson.Convert | scripts/funannotate_gff_to_json.py:40-68 | the result is a column-count error exactly when the data rows are missing or some row lacks nine fields. On success there is one record per data line, built from that line, and its map is the parse of that line's attribute column started from the pair and diagnostics the lines before it left behind |
| GffToJson.HeaderIgnored | scripts/funannotate_gff_to_json.py:40 | the first line is discarded unread: any two first lines give the same outcome |
| GffToJson.EmptySegmentsIgnored | scripts/funannotate_gff_to_json.py:61-62 | empty segments (doubled, leading or trailing `;`) make no difference to the parse |
| GffToJson.LastWriteWins | scripts/funannotate_gff_to_json.py:60-68 | without malformed segments the parse succeeds and reports nothing. The keys added are exactly the segments' keys, and each key ends with the value of its last segment |
| GffToJson.AttributesLastWriteWins | scripts/funannotate_gff_to_json.py:57-68 | for a whole column without malformed segments, the map's keys are exactly the segment keys, each with its last value |
| GffToJson.DiagnosticsDoNotSteer | scripts/funannotate_gff_to_json.py:66-67 | the printed diagnostics never influence the map or the pair carried on |
| GffToJson.MalformedIgnoredWhenBound | scripts/funannotate_gff_to_json.py:64-68 | once the carried pair is stored in the map, malformed segments are reported in order and the map ends as if they were absent |
| GffToJson.BoundMalformedKeepsState | scripts/funannotate_gff_to_json.py:64-68 | with the carried pair already stored, a malformed segment changes nothing but the diagnostics |
| GffToJson.MalformedIgnoredAfterFirstPair | scripts/funannotate_gff_to_json.py:60-68 | when the first non-empty segment of a column holds `=`, later malformed segments are reported and otherwise ignored |
| GffToJson.StalePairReused | scripts/funannotate_gff_to_json.py:64-68 | segments without `=` store the stale pair again, so the map gains that pair exactly when some segment is non-empty |
| GffToJson.PreviousPairLeaks | scripts/funannotate_gff_to_json.py:64-68 | a column with no `=` anywhere gets, as its whole map, the pair unpacked in an earlier record |
| GffToJson.UnboundPairAborts | scripts/funannotate_gff_to_json.py:64-68 | with no pair unpacked yet, a first non-empty segment without `=` aborts with that segment |
| GffToJson.FirstRecordWithoutPairAborts | scripts/funannotate_gff_to_json.py:45-68 | if the first data line's first non-empty segment lacks `=`, the whole conversion fails |
| GffToJson.ReadCoord | scripts/funannotate_gff_to_json.py:50-51 | a cell of a numeric coordinate column becomes the integer value of its digits, and one written without superfluous zeros is what `str` gives for that number; a cell of any other column keeps its text |
| GffToJson.ReadCoordStripsZeros | scripts/funannotate_gff_to_json.py:50-51 | a numeric cell reads as the number whose `str` is the cell without its leading zeros, so `007` reads as 7 |
| GffToJson.DataRows | scripts/funannotate_gff_to_json.py:40 | `skiprows=1`: the data rows are the lines after the first, and there are none in an empty file |
| GffToJson.RowsAttributes | scripts/funannotate_gff_to_json.py:45-68 | each record's map is the parse of its own row's attribute column, started from the pair and diagnostics that the earlier rows left behind |
| GffToJson.BoundPairNeverAborts | scripts/funannotate_gff_to_json.py:64-68 | once a pair is bound, the inner loop cannot abort, and a pair stays bound |
| GffToJson.UnboundParse | scripts/funannotate_gff_to_json.py:60-68 | with no pair bound, the inner loop aborts exactly when the first non-empty segment lacks `=`, naming that segment; otherwise it ends with a pair bound exactly when some segment is non-empty |
| GffToJson.BoundRowsNeverAbort | scripts/funannotate_gff_to_json.py:45-68 | once a pair is bound, no later line can abort the conversion |
| GffToJson.UnboundRows | scripts/funannotate_gff_to_json.py:45-68 | from no bound pair, the outer loop aborts exactly when, taking all lines' segments in file order, the first non-empty one lacks `=`; the error names that segment, whichever line it is on |
| GffToJson.ConvertOutcome | scripts/funannotate_gff_to_json.py:40-68 | the reader succeeds exactly when the table is well shaped and no segment without `=` comes before the first pair in file order. It aborts on an unbound attribute exactly when the table is well shaped and such a segment exists, and then names it |
| JsonToGff.Token | scripts/funannotate_json_to_gff.py:45 | the token `key=value` holds `=`, and when the key holds none, `split("=", 1)` gives back the key and the value |
| JsonToGff.Tokens | scripts/funannotate_json_to_gff.py:43-45 | one `key=value` token per attribute, in map order |
| JsonToGff.RenderAttributes | scripts/funannotate_json_to_gff.py:43-46 | the attribute column is empty exactly when the map is |
| JsonToGff.CoordText | scripts/funannotate_json_to_gff.py:52-53 | an absent coordinate is written as `""`; a number as canonical decimal text whose value is that number; a text coordinate unchanged |
| JsonToGff.Columns | scripts/funannotate_json_to_gff.py:48-58 | an entry is written as nine fields |
| JsonToGff.EntryLine | scripts/funannotate_json_to_gff.py:44-58 | writing an entry fails, with the missing-key error, exactly when it has no `attributes` |
| JsonToGff.Lines | scripts/funannotate_json_to_gff.py:42-59 | the lines fail exactly when some entry lacks `attributes`; otherwise there is one line per entry, in order |
| JsonToGff.Convert | scripts/funannotate_json_to_gff.py:61-63 | the output fails exactly when some entry lacks `attributes`. Otherwise it begins with `#gff-version 3` and a newline, and an empty document gives just that |
| JsonToGff.LineSplitsIntoColumns | scripts/funannotate_json_to_gff.py:48-58 | a written line splits on tabs into the nine fields in fixed order, `""` for each absent one, the attribute column last |
| JsonToGff.LineIsSingle | scripts/funannotate_json_to_gff.py:48-58 | a written line holds no newline when its fields hold none |
| JsonToGff.RenderSplitsIntoTokens | scripts/funannotate_json_to_gff.py:43-46 | a separable non-empty map's column splits on `;` into its tokens, none of them empty |
| JsonToGff.FileSplitsIntoLines | scripts/funannotate_json_to_gff.py:61-63 | the file splits on newlines into the header and one line per entry, each splitting into that entry's columns |
| RoundTrip.PairOf | scripts/funannotate_gff_to_json.py:65 | a segment holding `=` is its key, `=`, and its value |
| RoundTrip.ParseWellFormed | scripts/funannotate_gff_to_json.py:60-68 | well-formed segments with new keys are appended in order, and nothing is reported |
| RoundTrip.TokensOfPairs | scripts/funannotate_json_to_gff.py:43-45 | writing the pairs of well-formed segments gives the segments back |
| RoundTrip.PairsOfTokens | scripts/funannotate_json_to_gff.py:43-45 | the tokens of a map whose keys hold no `=` split back into that map |
| RoundTrip.RenderOfParse | scripts/funannotate_gff_to_json.py:57-68 | a well-formed attribute column parses without diagnostics, and writing the parsed map gives the column back |
| RoundTrip.ParseOfRender | scripts/funannotate_json_to_gff.py:43-46 | the written column of a separable map with unique keys parses back to the same map in the same order. Nothing is reported, and the carried pair becomes the last attribute |
| RoundTrip.ParseTokens | scripts/funannotate_gff_to_json.py:60-68 | the tokens of a non-empty separable map parse, from an empty map, as that map |
| RoundTrip.CoordRestored | scripts/funannotate_json_to_gff.py:52-53 | a coordinate cell without superfluous leading zeros is written back as it was read |
| RoundTrip.RowRestored | scripts/funannotate_json_to_gff.py:48-58 | the entry written for a row's record gives back the nine cells of that row |
| RoundTrip.RowsRestored | scripts/funannotate_json_to_gff.py:42-59 | clean rows convert without diagnostics, and the writer's lines for their records are the rows' original lines |
| RoundTrip.GffRoundTrip | scripts/funannotate_json_to_gff.py:61-63 | GFF -> JSON -> GFF, for data lines of nine non-empty fields without a carriage return, whose attribute column is well-formed (every `;`-separated segment holds `=`, and the keys are distinct) and whose digit coordinates are below 2^64 with no superfluous leading zero, gives the fixed header followed by the original data lines, unchanged and in order, with nothing reported |
| RoundTrip.ReadTableRejoins | scripts/funannotate_gff_to_json.py:40 | reading a file as lines of tab-separated fields loses nothing: rejoining the fields by tabs and the lines by newlines gives the text back, and no field holds a tab or a newline |
| RoundTrip.RenderSingleLine | scripts/funannotate_json_to_gff.py:43-46 | an attribute column built from single-line keys and values is single-line |
| RoundTrip.RecordWritable | scripts/funannotate_json_to_gff.py:48-58 | no column written for a clean record holds a tab or a newline |
| RoundTrip.DocumentWritable | scripts/funannotate_json_to_gff.py:42-59 | every entry written for clean records has attributes and single-line columns |
| RoundTrip.RecordRead | scripts/funannotate_gff_to_json.py:45-68 | the columns written for a readable record read back as that record, with no diagnostics, whatever pair an earlier record left behind |
| RoundTrip.RowsReadAs | scripts/funannotate_gff_to_json.py:45-68 | rows that each read as their record convert to exactly those records |
| RoundTrip.RecordsRestored | scripts/funannotate_gff_to_json.py:45-68 | the columns of readable records form numeric nine-column rows that convert back to exactly those records |
| RoundTrip.FileReadsAsColumns | scripts/funannotate_gff_to_json.py:40 | the table read from a written file is the header line followed by each entry's columns |
| RoundTrip.WrittenTable | scripts/funannotate_json_to_gff.py:61-63 | the data rows read from the file written for records are those records' columns |
| RoundTrip.ReadWritten | scripts/funannotate_gff_to_json.py:40-68 | a table whose data rows are the columns of readable records converts to exactly those records |
| RoundTrip.JsonRoundTrip | scripts/funannotate_gff_to_json.py:40-68 | JSON -> GFF -> JSON: reading back the file written for a non-empty list of clean records (numeric coordinates below 2^64, non-empty text fields, no tab, newline or carriage return in any field, key or value, a non-empty separable map with unique keys) gives exactly those records, with nothing reported |
| Scenarios.StepNewPair | scripts/funannotate_gff_to_json.py:65-68 | a well-formed segment with a new key appends its pair and becomes the carried pair |
| Scenarios.ParseTwo | scripts/funannotate_gff_to_json.py:60-68 | two segments with different keys give those two pairs in order |
| Scenarios.EmptyBetween | scripts/funannotate_gff_to_json.py:61-62 | `a;;b;` parses as `a;b` |
| Scenarios.MalformedBetween | scripts/funannotate_gff_to_json.py:64-68 | in `a;m;b`, the segment `m` without `=` is reported and the map is that of `a;b` |
| Scenarios.MalformedBetweenPairs | scripts/funannotate_gff_to_json.py:64-68 | `a;m;b` gives the pairs of `a` and `b` and reports `m` |
| Scenarios.LeakTwo | scripts/funannotate_gff_to_json.py:64-68 | a second line whose only segment lacks `=` gets the first line's pair as its attributes |
| Scenarios.ConvertOne | scripts/funannotate_gff_to_json.py:40-68 | a table of one data line converts to that line's record |
| Scenarios.ConvertTwo | scripts/funannotate_gff_to_json.py:40-68 | in a table of two data lines, the second line's column is parsed starting from the pair the first one left behind |
| Scenarios.FirstEqualsSplits | scripts/funannotate_gff_to_json.py:65 | `a=b=c` splits at its first `=`: key `a`, value `b=c` |
| Scenarios.ParseIdName | scripts/funannotate_gff_to_json.py:60-68 | `ID=g1` then `Name=n1` gives those two pairs |
| Scenarios.EmptySegmentsExample | scripts/funannotate_gff_to_json.py:61-62 | `ID=g1;;Name=n1;` gives exactly `ID` and `Name` |
| Scenarios.MalformedSegmentExample | scripts/funannotate_gff_to_json.py:57-68 | `ID=g1;BADSEGMENT;Name=n1` gives `ID` and `Name` and reports `BADSEGMENT` |
| Scenarios.LeakExample | scripts/funannotate_gff_to_json.py:64-68 | a line with attributes `BAD` after one with `ID=g1` reads as attributes `ID=g1` |
| Scenarios.UnboundExample | scripts/funannotate_gff_to_json.py:64-68 | a first record whose only segment is `BAD` aborts the conversion |
| Scenarios.LaterLineAborts | scripts/funannotate_gff_to_json.py:45-68 | when the first data line's column holds only empty segments, a segment without `=` on the second line aborts the conversion and is named |
| Scenarios.LaterLineExample | scripts/funannotate_gff_to_json.py:45-68 | a line with attributes `;` followed by one with attributes `BAD` aborts with `BAD` |
| Scenarios.EightColumnsRefused | scripts/funannotate_gff_to_json.py:41 | a data line of eight fields is refused |
| Scenarios.WriteOne | scripts/funannotate_json_to_gff.py:61-63 | a one-entry document is written as the header, a newline and that entry's line |
| Scenarios.GeneRender | scripts/funannotate_json_to_gff.py:43-46 | the map `ID=g1`, `Name=n1` is written as `ID=g1;Name=n1` |
| Scenarios.GeneRead | scripts/funannotate_gff_to_json.py:40-68 | a complete feature line reads as its record, with numeric coordinates and no diagnostics |
| Scenarios.GeneWrite | scripts/funannotate_json_to_gff.py:37-63 | writing that record gives the feature line back after the header |
| Scenarios.DocstringRoundTrip | scripts/funannotate_gff_to_json.py:23-38 | the record shown in the reader's docstring is written without error and read back as itself, with nothing reported |

## Left out

- File I/O, `Path.mkdir`, `argparse` and `main` are left out: the reader takes the table already split into fields, and the writer returns the file text.
- pandas CSV parsing is left out. `RoundTrip.ReadTable` stands for `read_csv` only on text without quotes, blank lines, ragged rows or carriage returns (pandas also ends a line at a bare `\r`, which `ReadTable` keeps inside a field). A missing row or a row without exactly nine fields is modelled as the column-count error, in place of pandas' own padding and tokenizer errors.
- pandas type inference is modelled only for the coordinate columns: a column becomes numbers exactly when every cell is a digit string. Signs (`+5`), floats, values of 2^64 or more, empty cells (NaN) and inference on the other columns are left out. A numeric `score` would make the writer's `"\t".join` raise `TypeError`, and the model keeps every non-coordinate field as text.
- JSON encoding and decoding (`to_json` with its index keys, `json.load`) are left out. The document is the sequence of entries in index order, and JSON numbers are exactly the `Number` coordinates.
- The `print` of a malformed segment and its exception text become the `warnings` list. Only the segment is kept.
- Unicode is left out: strings are sequences of `char`, with no encoding step.
- GffToJson.Convert: an empty attribute cell is read as an empty map. pandas reads it as NaN, a float, so `split` raises `AttributeError` and the script writes nothing. Both round trips therefore demand a non-empty attribute column or map.
- RoundTrip.GffRoundTrip: does not cover cells that pandas reads other than as the text itself: NA tokens such as `NA`, `null` or `None` (read as NaN), a leading `"` (read as a quote), a signed coordinate such as `+5` (read as 5), an integer coordinate in a column that also holds a float such as `1.5` (read as `1.0`), and a text column of numbers only, such as `phase` `0` on every line (read as integers, on which the writer's `join` raises `TypeError`). Its clean lines exclude only empty fields, carriage returns and digit coordinates of 2^64 or more; the other cases are outside the model's reading of a cell.
- GffToJson.ReadCoord: reads a digit cell of any length as its exact value. pandas holds an integer column in 64 bits, so a cell of 2^64 or more is not read that way. Both round trips demand coordinates below 2^64.
- RoundTrip.JsonRoundTrip: for the same reason, does not cover records whose text fields are NA tokens, begin with `"`, or are numbers in every record.
- JsonToGff.Convert: its contract states only the header prefix and the error condition. The full layout of the file is stated by `JsonToGff.FileSplitsIntoLines` and `Scenarios.WriteOne`.
- GffToJson.ParseSegments: its contract states only invariants. The exact outcome is stated by the lemmas `LastWriteWins`, `MalformedIgnoredWhenBound`, `StalePairReused` and `UnboundPairAborts`.
