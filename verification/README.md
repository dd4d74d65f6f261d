# Spillover repair of CSV event logs, in Dafny

This project models the preprocessing core of a small ETL script that cleans
raw CSV event logs before they are bulk-loaded into Postgres. For each data
file the script:

1. **strips NUL bytes** from every raw line, decodes it as UTF-8 and re-emits
   the file as CSV;
2. **scans** the records: the header's field count is the column count, and
   each later record, numbered from 2, goes into a *malformed map* (line
   number to record) when its count of non-empty fields is strictly between
   0 and the column count;
3. **repairs** the file when the map is non-empty. Records are numbered
   from 1. A record that is not in the map and has a field is copied. A
   zero-field record is dropped. A record in the map is written joined with
   the next line's record when that line is in the map too and the two
   *raw* field counts add up to the column count. Otherwise nothing is
   written for it.

It also models the loop over the files and how the loader derives the
destination table name from a file name.

Records are `seq<string>`. Each stage is a pure function from records to
records, or from raw lines to text. The CSV parser is a parameter
`parse: seq<string> -> seq<Record>`, and the UTF-8 decoder is a parameter
`decode: seq<byte> -> Option<string>`. The records the scan reads are taken
to be the records the repair reads, since both read the same sanitised file.

Modules:
- `Common`: `Option`, `Result`, `Record`, and the two errors the model
  distinguishes (`DecodeError`, `MissingHeader`).
- `NulStrip`: the byte-level stripping and the decoding of each line.
- `Scan`: the populated-field count, the classification, and the scan loop.
- `LineRepairer`: the outcome of one line, the rewritten file, the line
  number each written row comes from, and the writer loop.
- `Preprocess`: the per-file pipeline, the loop over files, and the lemmas
  that state what the repair does to a classified file.
- `Scenarios`: small files worked through the pipeline.
- `TableNames`: the file-name-to-table mapping.

## Behaviours worth knowing

- **The join test uses raw field counts.** The test at solution.py:196
  compares the sum of the two records' raw field counts, empty fields
  included. The populated counts computed at solution.py:193-194 are never
  used. Because the test uses raw counts, every joined row has exactly the
  column count (`Preprocess.OutputRows`).
- **No line is marked consumed.** After line `i` is joined with line
  `i + 1`, line `i + 1` is examined again at its own number. If lines `i`,
  `i+1` and `i+2` are malformed and both neighbouring pairs pass the test,
  line `i + 1` is written twice (`Preprocess.JoinedLineReexamined`,
  `Scenarios.MiddleLineWrittenTwice`).
- **Records whose fields are all empty are copied.** A record such as `,,`
  is a non-empty list that is not in the map, so solution.py:180-181 copies
  it unchanged. Only records with no field at all are dropped, at
  solution.py:183-186 (`Preprocess.BlankRecordCopied`,
  `Preprocess.ZeroFieldRecordDropped`).
- **Zero-field records survive when nothing is malformed.** The repair runs
  only when the map is non-empty (solution.py:149). Otherwise the file keeps
  its zero-field records (`Preprocess.PreprocessRows`).
- **One failing file stops the batch.** The loop over files at
  solution.py:122 has no exception handling, so a failing file ends the
  batch and later files are not processed (`Preprocess.PreprocessAll`).
- **An empty file is an error.** Reading the header at solution.py:137
  raises when the file has no record. This is modelled as `MissingHeader`.

## Model

| member | source | states |
|---|---|---|
| NulStrip.StripNul | solution.py:129 | the stripped line holds no NUL byte, is shorter than the line by exactly its number of NUL bytes, and equals the line when the line has no NUL |
| NulStrip.StripNulCounts | solution.py:129 | after stripping, every byte value other than NUL occurs exactly as often as before, and NUL occurs zero times |
| NulStrip.StripNulKeepsOrder | solution.py:129 | the stripped line is exactly the line's non-NUL bytes in their original order: its j-th byte is the byte at the j-th non-NUL position, and every non-NUL position is listed |
| NulStrip.StripNulIdempotent | solution.py:129 | stripping an already stripped line changes nothing |
| NulStrip.StripNulAppend | solution.py:127-129 | stripping two pieces separately and concatenating gives the same bytes as stripping their concatenation, so stripping line by line equals stripping the whole file |
| NulStrip.DecodeLine | solution.py:129 | a raw line is decoded after its NUL bytes are removed, so a line without NUL bytes is decoded as it is |
| NulStrip.DecodeLineIgnoresNul | solution.py:129 | NUL bytes never influence decoding: a line decodes exactly as its stripped form does |
| NulStrip.SanitizeLines | solution.py:127-131 | on success there is one text per raw line, each the decoding of that line once stripped; a failure names the first line whose stripped bytes do not decode, and every earlier line decodes |
| Scan.PopulatedExtremes | solution.py:141 | the populated count is 0 exactly when every field is empty, and equals the field count exactly when no field is empty |
| Scan.PopulatedIsCardinality | solution.py:141 | the populated count is the number of positions that hold a non-empty field |
| Scan.PopulatedAppend | solution.py:141 | the populated count of two joined records is the sum of their populated counts |
| Scan.ScanRows | solution.py:135-147 | fails with MissingHeader exactly when there is no record; otherwise returns the header's field count and a map whose keys are exactly the line numbers 2..n whose record has a populated count strictly between 0 and the header's field count, each mapped to its record; line 1 is never a key |
| Scan.Populated | solution.py:141 | the populated count never exceeds the field count; `Scan.PopulatedExtremes` and `Scan.PopulatedIsCardinality` pin it down as the number of non-empty fields |
| Scan.Malformed | solution.py:142 | a malformed record has at least one field, and its column count is at least 2; the classification itself is `0 < populated < length` |
| Scan.MalformedIndex | solution.py:140-145 | every key is a data line number, 2 to the number of records, so the header is never a key, and each key maps to the record on that line; `Scan.ScanRows` states the full membership condition |
| LineRepairer.RowOutcome | solution.py:180-198 | a written row is non-empty, and it is either the line itself (a line not in the map) or the map entries of that line and the next joined, with exactly the column count; `Preprocess.ClassifiedOutcome` states the outcome through the classification |
| LineRepairer.Repair | solution.py:179-198 | the rewritten file has no more rows than the input; every written row has at least one field; every written row is a record of the input or has exactly the column count |
| LineRepairer.Origins | solution.py:179-198 | the line numbers that produce a row are strictly increasing, lie within the file, and include a line exactly when its outcome writes a row |
| LineRepairer.RepairOrigins | solution.py:179-198 | the j-th written row is the outcome of the j-th producing line, so the output is the outcomes in line order |
| LineRepairer.WriteLine | solution.py:180-198 | the rows written for one line are exactly the outcome `LineRepairer.RowOutcome` gives for it: none, the line itself, or the join with the next line |
| LineRepairer.FixBadLine | solution.py:175-202 | the writer loop produces exactly the rewritten file that `LineRepairer.Repair` defines |
| Preprocess.NeedsRepairIffMapNonEmpty | solution.py:140-149 | the malformed map is non-empty exactly when some data record is malformed |
| Preprocess.PreprocessRows | solution.py:135-152 | fails exactly on a file with no record; the header is always the first row written; a file with no malformed record is left exactly as it was; after a repair no written row is empty |
| Preprocess.HeaderWrittenFirst | solution.py:179-181 | when the repair runs, the header is the first row it writes |
| Preprocess.ClassifiedOutcome | solution.py:179-198 | for a file classified by the scan: the header and every non-malformed record are copied if they have a field and dropped otherwise; a malformed record is written joined with the next record when that one is malformed and the raw field counts add up to the column count, and nothing is written for it otherwise |
| Preprocess.OutputRows | solution.py:179-198 | every written row comes from one line, in increasing line order; it is either that line unchanged (header or non-malformed record) or that malformed line joined with the next malformed line, with exactly the column count |
| Preprocess.LineWritten | solution.py:179-198 | when the repair runs, a line produces a row exactly when it is non-malformed with a field, or malformed and joining the next line; without a repair every line produces itself |
| Preprocess.ZeroFieldRecordDropped | solution.py:183-186 | when the repair runs, a record with no field produces no row, and no written row is empty |
| Preprocess.BlankRecordCopied | solution.py:179-181 | a record whose fields are all empty is copied unchanged at its own line's position |
| Preprocess.UnjoinedMalformedDropped | solution.py:189-198 | a malformed record that does not join the next line produces no row of its own |
| Preprocess.JoinedLineReexamined | solution.py:179-198 | when lines i, i+1 and i+2 all join their successors, the output holds line i joined with i+1, followed directly by line i+1 joined with i+2 |
| Preprocess.PreprocessFile | solution.py:122-152 | a successful file keeps at least its header row, and its failures are only the two errors the model distinguishes; `Preprocess.PreprocessFileOutcome` states when each ending happens |
| Preprocess.PreprocessFileOutcome | solution.py:122-152 | a file fails with a DecodeError exactly when some stripped line does not decode; it fails with MissingHeader only when it decodes but parses to no record; otherwise its result is the scan and repair of the parsed records |
| Preprocess.PreprocessAll | solution.py:122-152 | one outcome per file; a processed or failed outcome is that file's own result; every file after a failed one is not reached, and a file is not reached only if the file before it failed or was not reached |
| Scenarios.SpilloverPairJoined | solution.py:189-200 | header `a,b,c`, `1,2,3`, `4`, `5,6` gives header, `1,2,3`, `4,5,6` |
| Scenarios.SpilloverPairLost | solution.py:192-198 | header `a,b,c`, `x,,`, `,,z` gives only the header: both malformed lines are lost |
| Scenarios.MiddleLineWrittenTwice | solution.py:179-198 | header `a,b`, `x`, `y`, `z` gives header, `x,y`, `y,z` |
| Scenarios.HeaderOnlyUnchanged | solution.py:149-152 | a file holding only its header is returned unchanged |
| TableNames.Prefix | solution.py:93 | the prefix is a prefix of the name, contains no underscore, and is the whole name or is followed by an underscore |
| TableNames.TableName | solution.py:93-95 | the table name contains no underscore and is either `users` or the file name's prefix; `TableNames.TableNameOfFile` gives it for every name |
| TableNames.TableNameOfFile | solution.py:93-95 | a name `p_rest` or `p`, with no underscore in `p`, goes to table `p`, except that `user` goes to `users` |

## Left out

- Postgres access (`make_connection`, table creation and `copy_from` in
  `upload_to_db`, and the six report queries). This is database I/O that
  the model cannot see into.
- File discovery (`get_data_file_names`, `os.walk`). This is filesystem I/O.
  The batch is given as a sequence of raw files.
- Temporary files and `os.replace`. Each stage is a function from old
  content to new content, so atomic replacement is not modelled.
- The CSV dialect of `csv.reader` and `csv.writer`. Parsing is the
  parameter `parse`, and records are taken to survive the write-then-reread
  between stages unchanged. Line numbers are record numbers as the reader
  yields them.
- UTF-8 decoding. It is the parameter `decode`. The line number carried by
  `DecodeError` identifies the first failing line for the model's sake; the
  exception the code raises carries no such number.
- Preprocess.PreprocessFile: reader errors (`csv.Error`, raised for
  instance by a lone carriage return inside an unquoted field or by a field
  over the reader's size limit) and OS errors from `open` and `os.replace`
  are not modelled, because `parse` is total and the model does no I/O. In
  the program each of these ends the file and, through the unguarded loop
  at solution.py:122, the rest of the batch; `Preprocess.PreprocessAll`
  only stops at the two errors the model distinguishes.
- Logging of malformed, empty and joined lines. It has no effect on the
  output.
