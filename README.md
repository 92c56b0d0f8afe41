# Transcriber core: record reader and channel demultiplexer

This project models two parts of the transcriber.

- The fast record reader of its dBASE (DBF) table decoder (`transcriber/dbf/parser.py`).
  - A planner compiles the table's field list and the wanted field names into a skip sequence. The sequence reads each wanted field and makes one merged seek over every run of unwanted fields.
  - A walker starts just after the header and reads one marker byte per record. It runs the plan on records whose marker is the requested record type (a space for live records). It stops at the end-of-data marker `0x1A` or at the end of the file. It seeks over any other record whole.
- The conversion workers (`transcriber/converter/workers/worker.py`). They turn a cyclic, interleaved stream of single-channel readings into wide CSV rows. Output is a stream of text fragments:
  - first the header `Date,Time,<selected tags in catalog order>`;
  - then one fragment per kept reading. A fragment either starts a new row (`\n<date>,<time>,<value>`) or extends the current row (`,<value>`).
  - The counter `tagsWritten` decides which kind each fragment is.
  - The legacy text worker keeps a data line when its position modulo the cycle length is a selected catalog index.
  - The DBF worker takes each table row as it comes.

`DbfParser` (file `dbf_parser.dfy`) holds the reader; `Worker` (file `worker.dfy`) holds the workers.

Each loop of the source is a method with a loop, proved equal to a reference function:

- The planner's left fold (`CreateSkipSequence`) is proved equal to `Plan`, a definition built from the front:
  - mark every field;
  - merge runs of skips.
- The record loop (`IterRecords`) is proved equal to `Walk`. `Walk` reads each wanted field at its own offset, with no plan.
- The two `generate_csv` loops are proved equal to `LegacyCsv` and `DbfCsv`. These are built from `Demux`, the positional description "the k-th kept record starts a row exactly when k is a multiple of the selection width".

Properties proved about those reference functions:

- The plan covers exactly the record width.
- Running the plan reads what field-by-field decoding reads.
- For a non-empty selection whose catalog indices all lie below the cycle length, there is one output row per input cycle that reaches a selected position. A final partial cycle that ends before the first selected position gives no row.
- The header holds the selected tags in catalog order.

Inputs:

- The file is a byte sequence. A read past the end of the file returns fewer bytes, as Python's `read` does.
- The line-layout and date-formatting utilities are not part of this model, so they arrive as parameters:
  - Legacy lines are handed to a `parse` function.
  - DBF rows arrive as `Record`s whose values are already text.
- Errors are values of a `Result` type:
  - A selected tag that is absent from the catalog gives `UnknownTag` (Python's `ValueError` from `list.index`).
  - A cycle length of zero gives `ZeroDivision` (Python's `%` by zero), but only once a data line is reached.
  - An empty legacy input file gives `EmptyFile` (Python's `mmap` refuses to map an empty file). This happens before the output file is opened.

## Model

| member | source | states |
|---|---|---|
| DbfParser.CreateSkipSequence | transcriber/dbf/parser.py:4-14 | The fold's result is the reference plan. Its lengths add up to the record width. No two skips are adjacent. Its Keep entries are the wanted fields, in order, with their lengths. It has one entry per wanted field plus one per run of unwanted fields. |
| DbfParser.PlanSpan | transcriber/dbf/parser.py:8-13 | The lengths in the plan add up to the sum of the field lengths, so a record's bytes are consumed exactly. |
| DbfParser.PlanNoAdjacentSkips | transcriber/dbf/parser.py:10-13 | Consecutive unwanted fields are merged into one seek: a skip never follows a skip. |
| DbfParser.PlanKeeps | transcriber/dbf/parser.py:7-9 | The read entries of the plan are exactly the wanted fields, in field order, with their lengths. |
| DbfParser.PlanHead | transcriber/dbf/parser.py:6-13 | The plan is empty exactly when there are no fields. It starts with a skip exactly when the first field is unwanted. |
| DbfParser.PlanSize | transcriber/dbf/parser.py:4-14 | The plan has one entry per wanted field plus one per maximal run of unwanted fields. |
| DbfParser.PlanSnoc | transcriber/dbf/parser.py:6-13 | Adding one field at the end of the field list changes the reference plan as one iteration of the source's loop does. |
| DbfParser.PlanReadsFields | transcriber/dbf/parser.py:31-35 | Executing the plan (seek on skips, read on keeps) gives the same name-to-bytes map as reading every wanted field at its own offset. |
| DbfParser.ReadAt | transcriber/dbf/parser.py:35 | A read returns at most the requested number of bytes. When the file holds them all, it returns exactly the bytes at that offset. |
| DbfParser.ReadFieldsKeys | transcriber/dbf/parser.py:30-36 | A decoded record has the wanted field names as keys, no more and no fewer. |
| DbfParser.ReadFieldsKeepsOthers | transcriber/dbf/parser.py:30-35 | Decoding a record never touches an entry whose name is not a field name. |
| DbfParser.ReadFieldsValue | transcriber/dbf/parser.py:31-35 | With distinct field names, a wanted field's value is the bytes at that field's offset in the record body, as many as its length. |
| DbfParser.WalkKeys | transcriber/dbf/parser.py:27-40 | Every yielded record has exactly the wanted names as keys. |
| DbfParser.WalkSame | transcriber/dbf/parser.py:27-40 | The records yielded from an offset depend only on the bytes from that offset on. |
| DbfParser.HeaderIgnored | transcriber/dbf/parser.py:19 | Reading starts at the header length, so the header bytes play no part in the records. |
| DbfParser.ReadFieldsAgree | transcriber/dbf/parser.py:31-35 | A record decodes the same in any file that has the same bytes over the record's width. |
| DbfParser.WalkAppend | transcriber/dbf/parser.py:27-40 | After a run of whole records none of which stops the walk, the walk yields their records and then those of the bytes that follow. |
| DbfParser.ActiveRecordRead | transcriber/dbf/parser.py:28-36 | A record under the requested marker yields one record: its body decoded field by field. The walk then continues 1 + width bytes later. |
| DbfParser.SkippedRecordInvisible | transcriber/dbf/parser.py:39-40 | A record under any other marker, except the end marker, yields nothing. The walk is the same as in the file without that record. |
| DbfParser.DeletedRecordHidden | transcriber/dbf/parser.py:29-40 | The default walk over live records (marker `0x20`) passes over a soft-deleted record (marker `0x2A`). The walk over deleted records passes over a live one. |
| DbfParser.EndMarkerStops | transcriber/dbf/parser.py:37-38 | Nothing after the end-of-data marker is read. The walk yields only the records before it. |
| DbfParser.ReadRecord | transcriber/dbf/parser.py:30-36 | The loop over the plan gives the plan's name-to-bytes map and leaves the file position just past the record. |
| DbfParser.IterRecords | transcriber/dbf/parser.py:17-40 | The yielded records are those of the reference walk from the header length. Each has exactly the wanted names as keys. |
| Worker.IndexOf | transcriber/converter/workers/worker.py:36 | `list.index`: the position holds the tag and no earlier position does. |
| Worker.IndicesFrom | transcriber/converter/workers/worker.py:36 | The computed selection has the catalog indices of the selected tags, each once and strictly ascending (the sorted index list). It contains every selected tag's index. |
| Worker.SelectionWidth | transcriber/converter/workers/worker.py:36-42 | When every selected tag is in the catalog, the selection width is the number of selected tags. |
| Worker.HeaderColumns | transcriber/converter/workers/worker.py:40 | The header line is `Date,Time` followed by a comma and a tag name for every selected column, in catalog order. |
| Worker.CounterStep | transcriber/converter/workers/worker.py:42-52 | The counter stands at the width exactly when the next kept reading starts a row. It then restarts at 1; otherwise it grows by one. |
| Worker.CounterRange | transcriber/converter/workers/worker.py:46-52 | After at least one kept reading, the counter lies between 1 and the width. It is 1 exactly after a row start. |
| Worker.RowCount | transcriber/converter/workers/worker.py:46-52 | The number of rows started is the number of kept readings divided by the width, rounded up. |
| Worker.DemuxRows | transcriber/converter/workers/worker.py:46-52 | In stream order, the joined fragments are the kept readings cut into rows of the selection width, each row holding the date and time of its first reading and then every value. A short final group becomes a partial row. |
| Worker.PyMod | transcriber/converter/workers/worker.py:44 | Python's `%` takes the sign of the divisor: for a positive cycle length the result lies in 0 up to the length. |
| Worker.KeptCycle | transcriber/converter/workers/worker.py:43-45 | Within one cycle, the lines kept are those at the selected positions, in position order. |
| Worker.KeptCycles | transcriber/converter/workers/worker.py:43-45 | The cyclic filter keeps, from every cycle of data lines, the lines at the selected positions. |
| Worker.LegacyRows | transcriber/converter/workers/worker.py:43-52 | For a non-empty selection whose indices all lie inside the cycle, the joined data fragments are one row per input cycle that reaches a selected position; a final partial cycle that ends before the first selected position gives no row. Each row holds the date and time of the cycle's first selected line, then the selected values in catalog order. |
| Worker.LineEnd | transcriber/converter/workers/worker.py:43 | The first line of a file ends at its first newline, or at the end of the file. |
| Worker.SplitLinesRoundTrip | transcriber/converter/workers/worker.py:43 | Splitting a file into lines loses and adds no byte. |
| Worker.SplitLinesProper | transcriber/converter/workers/worker.py:43 | Split lines are non-empty and end at their first newline. Every line but the last ends with one. |
| Worker.MmapItemsAreBytes | transcriber/converter/workers/worker.py:26-43 | For a two-line file, iterating the memory map yields four one-byte items, not the two lines. |
| Worker.CsvWorker.constructor | transcriber/converter/workers/worker.py:14-18 | The worker keeps its arguments. A cycle length of 0 stands for the catalog's size. |
| Worker.CsvWorker.GenerateCsv | transcriber/converter/workers/worker.py:35-52 | Fails exactly when a selected tag is unknown (`UnknownTag`, checked first) or the cycle length is 0 and a data line exists. Otherwise the first fragment is the header and the rest are the positional fragments of the data lines whose cyclic position is selected. |
| Worker.CsvWorker.Convert | transcriber/converter/workers/worker.py:24-33 | An empty file fails with `EmptyFile` before the output file is created. Otherwise the output file is created and the joined fragments of the file's lines are written. On a later error nothing is written and the error is passed on. |
| Worker.CsvWorker.Work | transcriber/converter/workers/worker.py:20-22 | An empty file gives `EmptyFile`. Otherwise the result is the worker's file name after a successful conversion, or the conversion's error. |
| Worker.DbfWorker.constructor | transcriber/converter/workers/worker.py:56-62 | The worker keeps its arguments. A cycle length of 0 stands for the catalog's size. |
| Worker.DbfWorker.GenerateCsv | transcriber/converter/workers/worker.py:74-91 | Fails exactly when a selected tag is unknown. Otherwise there is one fragment per table row after the header, each placed by its position in the table. |
| Worker.DbfWorker.Convert | transcriber/converter/workers/worker.py:69-72 | The joined fragments of the table are written. On an error nothing is written and the error is passed on. |
| Worker.DbfWorker.Work | transcriber/converter/workers/worker.py:20-22 | The result is the worker's file name after a successful conversion; otherwise the conversion's error. |

## Left out

- File I/O is replaced by values: `open`, `seek`, `read`, `mmap` and the output file.
  - A file is a byte sequence.
  - A read past its end returns fewer bytes or none.
  - The written output file is the `written` string; whether the legacy worker creates it at all is `created`.
  - The name of the transcribed file (`utils.transcribed_filename`) is not part of this model.
- Python generators are modelled as the finished sequence of what they yield. Laziness and the order in which output interleaves with errors are not captured. The `written` text is empty on an error because `"".join` consumes the whole generator before the file is written.
- `DbfParser.IterRecords`: dbfread's `_skip_record` is not part of this model. It is taken to seek the sum of the field lengths (the header's record length less the marker byte). The model assumes a header whose record length agrees with its fields.
- `DbfParser.IterRecords` and `DbfParser.CreateSkipSequence`: a wanted field with the empty name is excluded (`NamesUsable`). The source would treat its entry as a skip and fail on extending a tuple in place.
- The `DBF` class, its header and field parsing, `required_tags` (a class-level attribute set by callers) and the patching of `_iter_records` into dbfread are not modelled. The walker receives the header length, the fields, the wanted names and the record type as parameters.
- `Worker.DbfWorker.GenerateCsv`: the decoding of the packed little-endian double, its rounding to 8 places and the DBF date formatting (`utils.format_dbf_date`) are not modelled. Table rows arrive with their values as text. Floating point is out of scope.
- `Worker.CsvWorker.GenerateCsv`: the line layout (`utils.data_from_line`, `utils.val_from_line`) is a parameter `parse`. The value written for a continuing fragment is taken to be the same one `data_from_line` gives.
- `Worker.LegacyRows`: requires every selected index to lie below the cycle length. A selected index at or beyond the cycle is never matched by the filter, so rows then come out with values of the next cycle. `GenerateCsv` itself has no such requirement.
- `Worker.DbfWorker.constructor`: only the base initialisation (worker.py:57) and the cycle-length default (worker.py:62) are modelled.
  - `Parser` (transcriber/dbf/parser.py:46-60) takes `required_tags`, so `Parser(required_fields=[...])` at worker.py:58 raises a TypeError and no DBF worker can be built as written.
  - `required_tag_indices` (worker.py:59-61) would raise a ValueError for an unknown tag inside the constructor. The model reports that error, `UnknownTag`, from `Worker.DbfWorker.GenerateCsv` instead.
  - `Parser` has no `parse_selection` method, so `_parse_selection` (worker.py:64-67) is not modelled. The table reaches `Worker.DbfWorker.Convert` as a parameter.
- The selected tags are a set, because the only caller passes a `set` (transcriber/converter/multithreading_model.py:11 declares the slot's second argument a `set`).
  - Their iteration order plays no part, since the indices are sorted (worker.py:36, 75).
  - A list holding a tag twice is not modelled. `sorted([...])` would keep the repeated index, so the header column would be repeated and `num_tags` would count the tag twice.
- The thread pool, the user interface and the other modules of the repository are not part of this model.

## Findings

| source | as written | input that shows it | evidently intended | confidence | as-written member | corrected member |
|---|---|---|---|---|---|---|
| transcriber/converter/workers/worker.py:26-28,43 | The legacy worker iterates the memory-mapped file object. In Python 3 that yields one item per byte, so the "lines" handed to the line-layout utility are single bytes, and the header skip drops one byte, not one line. | a file holding `H\nA\n` yields four one-byte items instead of the lines `H\n` and `A\n` | iterate the file line by line, each line keeping its newline (as iterating `mmap.readline` or a binary file would) | medium, not executed | Worker.MmapItemsAreBytes | Worker.SplitLinesRoundTrip |

The rest of the model (`Worker.CsvWorker.Convert`) uses the corrected line splitting (`SplitLines`, with `Worker.SplitLinesProper`).
