# Archive table decoding, modelled in Dafny

This project models the archive decoding core of a device-measurement
application. An archive file is a byte buffer of big-endian 32-bit fields.
The decoders turn it into a `UniArchTable`. The table has one timestamp per
row, a list of `UniColumn`s and the rows of decoded values.

The model covers four parts:

- **`ArchTableParser.Parse`**
  - Skips an optional `00 00 00 AD` prefix.
  - Infers the row width (`InferFloatsPerRow`). It keeps the candidate widths
    that divide the word count, scores the first row for each, and takes the
    first maximum. When no candidate divides, the whole payload is one row.
  - Builds the default columns `Value1`, `Value2`, … (`BuildColumns`).
  - Reads `min(rowCount, maxRows)` rows. Row `i` gets timestamp
    `start + i * periodMs`.
- **`UniArchTableParser.ParseMinuteTable`**: the fixed layout. It always skips
  4 bytes and reads rows of 47 words (188 bytes).
- **`UniColumn`**: the column record and its `DisplayName`.
- **`ArchDefParser.ParseColumns`**: the columns of an archive definition. It
  skips entries with a blank name, defaults the unit to `""`, and numbers the
  kept entries from 0.

How the model is built:

- Each decoder is a method over an `array?<byte>`, where `null` is allowed. It
  fills a fresh `UniArchTable` object, whose three list fields are sequences.
- Each decoder is proved equal to a specification function. The method's
  result is compared through the table's `Value()`.
- The properties are proved about those functions.
- Decoded floats are kept as their 32-bit patterns. `Int32BitsToSingle` only
  reinterprets bits, so a decoded value is its `Word`.
- Timestamps are integer milliseconds.

Modules and their files:

| module | file |
|---|---|
| `Wrappers` | `wrappers.dfy` |
| `BigEndian` | `big_endian.dfy` |
| `Decimal` | `decimal.dfy` |
| `Float32` | `float32.dfy` |
| `UniColumns` | `uni_column.dfy` |
| `UniArchTables` | `uni_arch_table.dfy`: the table class and the row layout both decoders share |
| `ArchTableParser` | `arch_table_parser.dfy` |
| `UniArchTableParser` | `uni_arch_table_parser.dfy` |
| `ArchDefParser` | `arch_def_parser.dfy` |

Behaviour at the edges, as the code has it:

- `ParseMinuteTable` has no null check. A null buffer throws
  `NullReferenceException` when its length is read
  (Models/UniArchTableParser.cs:17).
- `Parse` rejects only a null buffer or one under 8 bytes
  (Models/UniArchTable.cs:25). A payload that no candidate width divides
  becomes one row (Models/UniArchTable.cs:78-82).
- Both decoders have optional arguments: `periodMs = 60000`, and
  `maxRows = 500` for `Parse` or `maxRows = 300` for `ParseMinuteTable`
  (Models/UniArchTable.cs:22-23, Models/UniArchTableParser.cs:11-12). The
  model gives its methods the same defaults.

## Model

| member | source | states |
|---|---|---|
| UniArchTables.UniArchTable.constructor | Models/UniArchTable.cs:9-14 | a new table has empty `Time`, `Columns` and `Rows` lists |
| UniArchTables.RowsToRead | Models/UniArchTable.cs:43-44 | the loop bound `Math.Min(rowCount, maxRows)` as a count: at most `rowCount`, at most `maxRows`, zero when `maxRows <= 0` |
| UniArchTables.DecodedRows | Models/UniArchTable.cs:52-62 | `n` rows, each exactly `w` words long |
| UniArchTables.DecodedRowsAt | Models/UniArchTable.cs:55-60 | row `i`, field `j` is the big-endian word at byte `offset + (i*w + j)*4`, and that read lies inside the rows |
| UniArchTables.DecodedRowsFrame | Models/UniArchTable.cs:52-65 | the rows depend only on the bytes they cover: the prefix and the bytes after the last full row are ignored |
| UniArchTables.DecodeEncodedRows | Models/UniArchTable.cs:52-62 | rows of width `w` written as big-endian words decode back to themselves, whatever bytes come before or after |
| UniArchTables.DecodedTable | Models/UniArchTable.cs:46-65 | `n` rows with `n` timestamps, and every row as wide as the `w` columns (`Rows.Count == Time.Count`) |
| UniArchTables.TimestampsAt | Models/UniArchTable.cs:64 | timestamp `i` is `start + i*periodMs` |
| UniArchTables.TimestampsEvenlySpaced | Models/UniArchTable.cs:64 | consecutive timestamps are exactly `periodMs` apart |
| UniArchTables.DefaultColumnsWellFormed | Models/UniArchTable.cs:129-144 | column `i` has index `i`, name `"Value"` followed by the decimal text of `i+1`, and unit `""`; its display name is its name; names are pairwise distinct |
| UniArchTables.DecodedRowsSnoc | Models/UniArchTable.cs:54-63 | appending the row read from byte `offset + i*w*4` extends the first `i` rows to the first `i+1` rows |
| BigEndian.ReadEncodedWord | Models/UniArchTable.cs:59 | `ReadUInt32BigEndian` undoes the big-endian encoding of a word |
| BigEndian.EncodeReadWord | Models/UniArchTable.cs:59 | re-encoding the word read from four bytes gives the same four bytes back |
| BigEndian.ReadWordAt | Models/UniArchTable.cs:88-93 | reading the four bytes at an array offset directly gives the big-endian word `ReadWord` of the array's contents |
| BigEndian.WordsOfEncoding | Models/UniArchTable.cs:57-61 | consecutive words written big-endian are read back in order |
| ArchTableParser.PrefixOffset | Models/UniArchTable.cs:28-32 | the offset is 4 exactly when bytes 0..3 are `00 00 00 AD`, i.e. the first word is the marker `0xAD`, otherwise 0 |
| ArchTableParser.PayloadWords | Models/UniArchTable.cs:34-39 | after the length check there are at least 4 payload bytes and at least one whole word, so "No payload." and "No float data." never fire; the count is `(len - offset) / 4`, rounded down |
| ArchTableParser.DivisibleCandidates | Models/UniArchTable.cs:74-76 | the filter keeps exactly the candidates `c > 0` with `totalFloats % c == 0` |
| ArchTableParser.ScoreOf | Models/UniArchTable.cs:95-122 | the score is -1000 exactly when an inspected word is NaN or infinite, and otherwise lies between -3 and +4 points per inspected word |
| ArchTableParser.Score | Models/UniArchTable.cs:88-122 | the scoring loop with its early return computes `ScoreOf` of the first `min(c, 16)` words |
| ArchTableParser.ScoreReadsInBounds | Models/UniArchTable.cs:88-102 | for a dividing candidate, every word the scorer reads belongs to the first row and lies inside the buffer |
| ArchTableParser.NonFiniteRanksLast | Models/UniArchTable.cs:106 | a candidate whose first row shows a NaN or an infinity ranks below every candidate with finite inspected words |
| ArchTableParser.FirstMaxIndex | Models/UniArchTable.cs:124-126 | the stable descending sort followed by `First()` picks the first position holding the largest score |
| ArchTableParser.FirstMaxIndexUnique | Models/UniArchTable.cs:124-126 | the first-maximum properties determine that position |
| ArchTableParser.BestDivisor | Models/UniArchTable.cs:74-126 | the chosen width is at least 1 and divides the total; it is the total when nothing divides, otherwise one of the candidates |
| ArchTableParser.InferredWidth | Models/UniArchTable.cs:70-127 | with the fixed list {47,46,48,40,32,24,16,12,10,8,6,4}, the width is a dividing member of the list or the total word count |
| ArchTableParser.BestDivisorIsFirstBest | Models/UniArchTable.cs:124-126 | no dividing candidate scores higher than the chosen width, and a tied one never comes earlier in the list |
| ArchTableParser.BestDivisorFallback | Models/UniArchTable.cs:78-82 | when no candidate divides, the whole payload is one row |
| ArchTableParser.InferFloatsPerRow | Models/UniArchTable.cs:70-127 | the method returns `InferredWidth` of its buffer |
| ArchTableParser.BuildColumns | Models/UniArchTable.cs:129-144 | the column loop builds exactly `DefaultColumns(floatsPerRow)` |
| ArchTableParser.RowsRead | Models/UniArchTable.cs:43-44 | the row count is `min(totalFloats / w, maxRows)`, zero when `maxRows <= 0`, and the rows fit in the payload |
| ArchTableParser.ParseSpec | Models/UniArchTable.cs:19-68 | a null buffer or one shorter than 8 bytes fails with `ArgumentException("archBytes is empty or too small.")`, and nothing else fails; a success is well formed, with as many columns as the inferred width and `RowsRead` rows |
| ArchTableParser.ParsedTableContents | Models/UniArchTable.cs:50-64 | the columns are the defaults, `Time[i] == start + i*periodMs`, and row `i`, field `j` is the word at byte `offset + (i*w + j)*4`, which lies inside the buffer |
| ArchTableParser.ReadRows | Models/UniArchTable.cs:52-65 | the row loop leaves the table with exactly the rows and timestamps of `DecodedTable` |
| ArchTableParser.Parse | Models/UniArchTable.cs:19-68 | the method's result is `ParseSpec` of its buffer, and on success the table is freshly allocated; `periodMs` and `maxRows` default to 60000 and 500 |
| ArchTableParser.DefaultRowCount | Models/UniArchTable.cs:22-23 | with the default arguments, a successful parse has between 1 and 500 rows, and `Time[i] == start + i*60000` |
| UniArchTableParser.MinuteRows | Models/UniArchTableParser.cs:34-36 | the row count is `min((len-4)/188, maxRows)`, zero when `maxRows <= 0`, at least 1 when `maxRows >= 1`, and the rows fit after the 4 skipped bytes |
| UniArchTableParser.MinuteTableSpec | Models/UniArchTableParser.cs:8-55 | null fails with `NullReferenceException`, and fewer than 192 bytes fail with `ArgumentException("arch file too small")`; otherwise the table is well formed, with the 47 default columns and `MinuteRows` rows |
| UniArchTableParser.MinuteTableContents | Models/UniArchTableParser.cs:38-51 | `Time[r] == start + r*periodMs`, and row `r`, field `c` is the word at byte `4 + r*188 + c*4`, which lies inside the buffer |
| UniArchTableParser.HeaderIgnored | Models/UniArchTableParser.cs:34-41 | the first 4 bytes are skipped whatever they hold: buffers that differ only there give the same result |
| UniArchTableParser.MinuteTableRoundTrip | Models/UniArchTableParser.cs:34-52 | 47-word rows written after any 4 bytes decode to exactly those rows, even with a trailing partial row, when `maxRows` allows them all |
| UniArchTableParser.ParseMinuteTable | Models/UniArchTableParser.cs:8-55 | the method's result is `MinuteTableSpec` of its buffer, and on success the table is freshly allocated; `periodMs` and `maxRows` default to 60000 and 300 |
| UniArchTableParser.DefaultRowCount | Models/UniArchTableParser.cs:11-12 | with the default arguments, a successful parse has between 1 and 300 rows, and `Time[r] == start + r*60000` |
| UniColumns.UniColumn.DisplayName | Models/UniColumn.cs:9-12 | the display name equals the name exactly when the unit is empty or blank; otherwise it is `Name + " [" + Unit + "]"` |
| UniColumns.DisplayNameIgnoresIndex | Models/UniColumn.cs:9-12 | the display name depends only on the name and the unit |
| UniColumns.DisplayNameDeterminesUnit | Models/UniColumn.cs:12 | two columns with the same name, non-blank units and equal display names have the same unit |
| UniColumns.ColumnEquality | Models/UniColumn.cs:3-7 | two columns are equal exactly when index, name and unit are equal |
| Decimal.ParseNatToString | Models/UniArchTable.cs:137 | the decimal text in `$"Value{i + 1}"` reads back as `i + 1` |
| Decimal.NatToStringInjective | Models/UniArchTableParser.cs:27 | different numbers give different column names |
| Float32.InClosedRangeIsFinite | Models/UniArchTable.cs:104-115 | a word inside a finite interval test is neither NaN nor infinite |
| Float32.NaNOrInfinityIsLargeMagnitude | Models/UniArchTable.cs:104-118 | NaN or infinity means the magnitude bits are at or above those of +Infinity |
| ArchDefParser.UnitOrEmpty | Models/ArchDefParser.cs:18 | a missing unit becomes `""`, and a present one is kept |
| ArchDefParser.Kept | Models/ArchDefParser.cs:15-21 | the kept entries are exactly the input entries with a non-blank name, and there are no more of them than inputs |
| ArchDefParser.KeptConcat | Models/ArchDefParser.cs:15-25 | filtering splits over concatenation, so the kept entries stay in input order |
| ArchDefParser.ColumnsFrom | Models/ArchDefParser.cs:13-25 | no more columns than entries, indices consecutive from the start index, and every name non-blank |
| ArchDefParser.ColumnsAreNumberedKeptEntries | Models/ArchDefParser.cs:13-25 | column `k` is the `k`-th kept entry, with index `k`, its name, and its unit or `""` |
| ArchDefParser.SkippedEntryIgnored | Models/ArchDefParser.cs:20-21 | an entry with a missing or blank name changes nothing and uses up no index |
| ArchDefParser.ParseColumns | Models/ArchDefParser.cs:11-27 | the `foreach` loop with its `index` counter returns `ColumnsFrom(props, 0)` |

## Left out

- XML parsing (`XDocument.Parse`, `Descendants`, `Element(...)?.Value`) is left out. `ParseColumns` takes the `PropDesc` entries already extracted, as optional name and unit strings. Malformed XML is not modelled.
- Floating-point arithmetic is not modelled. The scorer's tests are stated on bit patterns:
  - "NaN or infinity" means the exponent field is all ones.
  - The interval tests rely on IEEE-754 ordering non-negative finite floats like their bit patterns, with `-0.0` equal to `0`.
  - `Math.Abs(v) > 1e6` compares magnitude bits.
- `DateTime` is modelled as integer milliseconds. The range checks and overflow of `AddMilliseconds` are not modelled.
- 32-bit `int` overflow of the index arithmetic is not modelled. Integers are unbounded. Positions stay below the buffer length, which fits in an `int`.
- `UniColumn.Unit` cannot be null in the model. Every constructor call in this code passes a non-null unit.
- ArchTableParser.Parse: the model keeps each row as a value (`seq<Word>`) in the table. The `float[]` arrays the table would share with its caller are not modelled, so neither is aliasing.
- ArchTableParser.Parse: its nested row loops are the separate method `ReadRows`, which `Parse` calls. Their proof is kept apart from the proof of the width inference.
- ArchTableParser.ParsedTableContents: "the words after the last full row are ignored" is stated for the rows (`DecodedRowsFrame`), not for the whole call. The inferred width still depends on the total length.
- Services/CeaZipStore.cs is not part of this model: HTTP fetch, ZIP navigation, file-name timestamp parsing and the little-endian definition id.
- The chart scripts under wwwroot and Models/Measurement.cs are not part of this model. They are rendering code and a property bag.
