# DuckDB's PostgreSQL connector: wire codecs, file reader and parallel scan

A Dafny model of the parts of the connector that translate between DuckDB vectors
and PostgreSQL's wire formats, and of the protocols around them.

- **Binary COPY** (`Bytes`, `Decimal`, `DateTime`, `NestedLists`, `WireFormat`,
  `Vectors`, `BinaryWriter`, `BinaryParser`, `WireRoundTrip`). `WireFormat` gives
  two reference functions on byte strings, `Enc` for values and `Dec` for arbitrary
  bytes. The classes `BinaryWriter` and `BinaryParser` follow the C++ methods loop by
  loop and are proved against them over vectors with arbitrary list offsets;
  `WireRoundTrip` proves that `Dec` undoes `Enc` for every type, up to the configured
  replacement of NULs. Numerics keep their base-10000 arithmetic, with each intermediate
  checked against its storage type.
- **The server's side of it** (`ServerFormat`, `ServerStream`, `Writability`,
  `NulReplacement`). The binary formats told independently of writer and parser: what
  the server receives for every value and every stream, that the parser reads every field
  these formats give a meaning, and which values can be written at all.
- **Files** (`RowFormat`, `FileReader`). Row framing by length words alone, the scan
  for the last complete row, and the bounded buffer with its carry-over region.
  Reading in chunks through any buffer of at least 19 bytes is proved equal to
  parsing the file in one piece.
- **Insert** (`CopyLifecycle`). COPY streams opened, filled and closed by `SinkCopy`
  and `FinalizeCopy`; what the server receives in a whole run is proved to be the rows
  sunk.
- **Parallel scan** (`ParallelScan`, `ScanInterleavings`, `ScanRefinement`). The methods
  that claim page ranges, and a state machine of all interleavings of all workers over
  the same claims: safety, completeness, termination and progress. Each call of the
  methods is proved to be steps of that machine.
- **Nested literals** (`Characters`, `ArrayLiteral`, `Subtexts`, `TextPieces`,
  `NestedLiteral`, `NestedRoundTrip`, `ListsOfLists`). Array and composite literals, and
  their conversion a vector at a time, with the flattened list elements and the shared
  row offset of the source. `NestedRoundTrip` has the exact condition under which the
  values of a vector, of any nesting, come back. `ServerLiterals` and `SentLiterals` have
  the server read what the connector writes, and the connector what the server prints.
- **Other text** (`CopyText`, `Hstore`, `HstoreSyntax`, `HstoreJson`). COPY text, hstore
  with the whole syntax its parser accepts, and its JSON form; each writer against a
  reader.
- **Catalog** (`CatalogSlices`). One cursor that slices a result per schema, and the
  runs of one type within a slice.

`Wrappers` holds the option and result types, one constructor per kind of exception, and
three facts about sequences.

## Where the code does not keep a value

These follow the code as it stands. Each has its exact condition below.

- A decimal whose scale needs more digits than its storage type has when rounded up
  to whole groups (9 in INT32, 17 and 18 in INT64, 37 and 38 in INT128) overflows for
  large fractions in `WriteDecimal`: `Decimal.ScaleIsSafe`, `Decimal.NinesOverflow`.
- `ReadDecimal` loses digits when a numeric carries more than one group beyond its
  scale: `Decimal.MagnitudeTruncates`, `Decimal.ExtraGroupLost`.
- The text NULL is not quoted in array literals and reads back as a NULL:
  `ArrayLiteral.ListRoundTrip`. The server takes it for a NULL in any case of letters:
  `ServerLiterals.ServerReadsList`.
- Composite literals drop NULL fields, and the parser's quoted flag is cleared for lists
  only, so what happens to a NULL depends on the fields before it:
  `ArrayLiteral.StructParses`, `ArrayLiteral.StructRoundTrip`, `ArrayLiteral.FieldsLost`.
- The rows of one vector of composites share a row offset that does not advance at a
  NULL, so that a composite behind a NULL one is stored one row too early and its own row
  is never written; the lists of a vector share their elements' rows in the same way:
  `NestedLiteral.ConvertedRows`, `NestedLiteral.NullsInFront`,
  `ListsOfLists.NullRowShifts`, `ListsOfLists.NullRowShiftsLists`.
- Lists directly inside lists are not quoted, so that the parsers of the inner levels
  meet texts without their quotes: `NestedRoundTrip.TreesRoundTrip`,
  `ListsOfLists.ListsOfListsRoundTrip`, `ListsOfLists.CommaSplits`.
- The server leaves round brackets in array elements and curly ones in fields bare, and
  doubles quotes in fields; the connector's parser counts the former as brackets and drops
  the latter: `SentLiterals.SentArrayRead`, `SentLiterals.SentRowRead`,
  `SentLiterals.SmileLost`, `SentLiterals.QuoteLost`.
- With more than 2^32 - 1 pages expected, a ctid scan never stops claiming:
  `ScanInterleavings.EndsOnlyWithin`.

## Model

| member | source | states |
|---|---|---|
| `Decimal.MagnitudeTruncates` | src/include/postgres_binary_parser.hpp:171-227 | For any digit groups, weight and scale, what `ReadDecimal` accumulates is the denoted value times 10^scale, truncated, if and only if the correction is at most one digit group or the digits behind the point are below 10^correction |
| `Decimal.ExtraGroupLost` | src/include/postgres_binary_parser.hpp:195-221 | A concrete numeric outside that condition: 0.12345678 at scale 2 reads as 0 where truncation gives 0.12 |
| `BinaryParser.ReadExtraGroup` | src/include/postgres_binary_parser.hpp:160-228 | The same through `ReadDecimal` on the bytes of that numeric: a finite result is 0 |
| `Decimal.MagnitudeExact` | src/include/postgres_binary_parser.hpp:171-227 | Inside the condition no digit is lost if and only if the denoted value has none beyond the scale; covers stripped trailing groups, weights below -1 and weights beyond the last group |
| `Decimal.Storage.WidthFits` | src/include/postgres_conversion.hpp:125-209 | Each storage type holds every decimal of its widest declared width, and the power table reaches that far |
| `BinaryParser.BinaryParser.ReadDecimal` | src/include/postgres_binary_parser.hpp:160-228 | Every numeric in the readable range (regular, below 10^width, scale within the width) is read without any intermediate of type T overflowing, to exactly its signed value, consuming exactly its digits; any finite result returned is the signed magnitude of the digits on the wire; the three non-finite signs and bad signs take their own outcomes |
| `BinaryParser.BinaryParser.ReadIntegralPart` | src/include/postgres_binary_parser.hpp:178-187 | The integral loop consumes the groups before the point, supplies absent ones as zero, and fails only outside the readable range |
| `BinaryParser.BinaryParser.ReadFractionalPart` | src/include/postgres_binary_parser.hpp:195-222 | The fractional loop consumes exactly the remaining groups and leaves the corrected fraction, failing only outside the readable range |
| `BinaryParser.BinaryParser.ReadDecimalConfig` | src/postgres_binary_parser.cpp:75-90 | The four header words come off the cursor in order; any sign outside the five codes is an error |
| `Decimal.MagnitudeOfWritten` | src/include/postgres_binary_writer.hpp:163-213 | The digit groups and weight the writer derives from any magnitude and scale, put through the arithmetic of the reader, give the magnitude back, and always meet the exactness condition |
| `Decimal.ScaleIsSafe` | src/include/postgres_binary_writer.hpp:185-195 | Every value of the full width can be written if and only if 10000^ceil(scale/4) fits the storage type, that is: always for INT16, up to scale 8 in INT32, 16 in INT64, 36 in INT128 |
| `Decimal.NinesOverflow` | src/include/postgres_binary_writer.hpp:191 | A concrete value beyond that bound: 0.999999999 as DECIMAL(9,9) overflows its INT32 when aligned |
| `WireRoundTrip.DecimalRoundTrip` | src/include/postgres_binary_writer.hpp:153-213 | Reading the bytes written for a decimal returns that decimal and their length, whatever follows them, whenever its aligned fraction fits the storage type |
| `WireRoundTrip.NumericRoundTrip` | src/include/postgres_binary_parser.hpp:160-228 | The same for every numeric in the readable range with any 16-bit group count and weight, not only those this writer produces |
| `BinaryWriter.BinaryWriter.WriteDecimal` | src/include/postgres_binary_writer.hpp:153-213 | The two digit loops and the reversed output emit exactly one field with the groups of the aligned value, and fail exactly where the aligned fraction leaves T |
| `Decimal.WrittenDenotes` | src/include/postgres_binary_writer.hpp:163-213 | The digit groups and weight the writer derives denote the magnitude divided by 10^scale, as a sum of groups times powers of 10000 |
| `DateTime.DateRoundTrip` | src/include/postgres_binary_writer.hpp:92-103 | Every accepted date survives the modulo-2^32 conversion both ways, and only the infinities get the two infinity codes |
| `DateTime.TimestampRoundTrip` | src/include/postgres_binary_writer.hpp:119-134 | Every accepted int64_t timestamp is read back by `ReadTimestamp` without a range error, and only the infinities get the infinity codes |
| `BinaryWriter.BinaryWriter.WriteTimestamp` | src/include/postgres_binary_writer.hpp:119-138 | One eight-byte field, or the range error with nothing written |
| `BinaryParser.BinaryParser.ReadTimestamp` | src/include/postgres_binary_parser.hpp:109-127 | Takes eight bytes; overflow and non-finite sums are errors |
| `NestedLists.RowsOfDepthFirst` | src/postgres_binary_parser.cpp:128-154 | Cutting the depth-first leaf sequence of any rectangular nest level by level, as `ReadArray` lays out its offsets, rebuilds the nest |
| `WireRoundTrip.EncArrayIsDepthFirst` | src/include/postgres_binary_writer.hpp:285-305 | If `WriteArray` succeeds the lists are rectangular in the collected dimensions and the bytes are those of their leaves in depth-first order |
| `WireRoundTrip.ArrayRoundTrip` | src/include/postgres_binary_writer.hpp:430-472 | A non-empty multidimensional list that can be written, no text in it altered, decodes to itself, its back-patched length included |
| `WireRoundTrip.StructRoundTrip` | src/include/postgres_binary_writer.hpp:473-489 | The same for structs of any fields |
| `WireRoundTrip.FieldsRoundTrip` | src/postgres_binary_parser.cpp:408-417 | The OID-tagged fields of a struct come back one by one, each consuming exactly its own bytes |
| `WireRoundTrip.ScalarRoundTrip` | src/include/postgres_binary_writer.hpp:307-404 | Every scalar type: the bytes of a value decode to the value and nothing more is consumed |
| `WireRoundTrip.RoundTrip` | src/include/postgres_binary_writer.hpp:307-493 | For every type, every setting `Initialize` accepts and every value the writer accepts (fields below 2 GiB), decoding what was encoded, followed by arbitrary bytes, gives the value with the NULs of its texts replaced, and its exact length |
| `RowFormat.EncFramed` | src/include/postgres_binary_writer.hpp:307-493 | The length word at the front of everything emitted for a value, patched in or not, is the number of bytes that follow, or -1 for NULL |
| `Vectors.ReserveKeeps` | src/postgres_binary_parser.cpp:142 | Reserving child space leaves every row stored so far and its freshness alone |
| `Vectors.ListsStored` | src/postgres_binary_parser.cpp:131-153 | Entries with running offsets over a child that received a level of leaves read off exactly the lists of that level |
| `Vectors.ListsElsewhere` | src/postgres_binary_parser.cpp:131-153 | And no other row of the list vector or of its child changes |
| `WireRoundTrip.ReplacePieces` | src/include/postgres_binary_writer.hpp:270-282 | NUL-free pieces joined by NUL are sent as the same pieces joined by the replacement, and nothing else is done to them |
| `WireRoundTrip.PiecesOfText` | src/include/postgres_binary_writer.hpp:270-282 | Every text is its NUL-free pieces joined by NUL, so the above is about all texts |
| `WireRoundTrip.ReplacedHasNoNul` | src/postgres_copy_to.cpp:21-28 | With any accepted setting nothing stored contains NUL |
| `WireRoundTrip.EncReplaced` | src/include/postgres_binary_writer.hpp:260-283 | Writing a value under a setting is writing the value with its NULs replaced |
| `NulReplacement.SameStored` | src/include/postgres_binary_writer.hpp:260-283 | For the same setting the binary and the text writer store the same text, or both refuse it |
| `Writability.Writes` | src/include/postgres_binary_writer.hpp:307-493 | A value can be written exactly if: dates and timestamps are within the range of the server or infinite, the aligned fractions of decimals fit, texts fit an int32_t and have a replacement for their NULs, lists are empty or, level by level, of one length below 2^32 with none NULL or empty, and neither lists nor records hold decimals or records |
| `Writability.RowsWrite` | src/postgres_copy_to.cpp:303-311 | Rows can be written exactly if each value of theirs can |
| `Bytes.BeDigit` | src/include/postgres_binary_writer.hpp:72-76 | Byte i of an n-byte word has the weight 256^(n-1-i) |
| `ServerFormat.UuidOnWire` | src/include/postgres_binary_writer.hpp:147-151 | The 16 bytes of a UUID are the number (upper + 2^63) * 2^64 + lower |
| `ServerFormat.UuidFromWire` | src/include/postgres_binary_parser.hpp:137-143 | And any 16 bytes are read as the UUID with that number |
| `ServerFormat.UuidOrder` | src/include/postgres_binary_writer.hpp:147-151 | The bytes of UUIDs are ordered as their 128-bit values are |
| `ServerFormat.DateReceived` | src/include/postgres_binary_writer.hpp:92-103 | A date is accepted exactly within the range of the server (Julian day 0 to 2147483493) or infinite, and is received as that date |
| `ServerFormat.TimestampReceived` | src/include/postgres_binary_writer.hpp:119-138 | The same for timestamps, in microseconds of 2000-01-01 |
| `ServerFormat.DecimalReceived` | src/include/postgres_binary_writer.hpp:153-213 | The numeric written for a decimal is received as its value |
| `ServerFormat.OidNames` | src/postgres_utils.cpp:622-662 | The type identifiers in arrays and records are those the catalog of the server has for the types |
| `ServerFormat.ServerReceives` | src/include/postgres_binary_writer.hpp:307-493 | For every type and every value written, a receiver defined from the formats (field lengths, two-complement words, 2000-based dates, numerics, arrays with flags, identifiers and lower bounds, records) gets the value with its NULs replaced, and its field ends where the next begins |
| `ServerFormat.FieldRead` | src/postgres_binary_parser.cpp:156-423 | Every field to which the formats give a value, not only those this writer produces, is read as that value and ends where it ends |
| `ServerFormat.SpecialNumbers` | src/postgres_binary_parser.cpp:451-461 | NaN and the infinities become NULL if so configured and an error if not; any other sign word is an error |
| `ServerFormat.ShapeRefused` | src/postgres_binary_parser.cpp:348-413 | A record of another number of fields and an array of another number of dimensions are refused |
| `ServerStream.HeaderReceived` | src/include/postgres_binary_writer.hpp:50-54 | A receiver that checks signature and critical flags and skips the announced extension starts with the first row |
| `ServerStream.RowsReceived` | src/postgres_copy_to.cpp:303-311 | Rows and trailer are received as the rows, NULs replaced |
| `BinaryWriter.CollectDimensions` | src/include/postgres_binary_writer.hpp:441-450 | The loop over first elements, at any stored offsets, yields the dimensions of the nested value itself, wherever no list on that path is NULL or empty |
| `BinaryWriter.BinaryWriter.WriteInteger` | src/include/postgres_binary_writer.hpp:72-76 | A length word and the big-endian two-complement bytes |
| `BinaryWriter.BinaryWriter.WriteVarchar` | src/include/postgres_binary_writer.hpp:260-283 | Texts without NUL verbatim, otherwise an error or every NUL replaced, as configured |
| `BinaryWriter.BinaryWriter.PatchLength` | src/include/postgres_binary_writer.hpp:468-470 | Storing the size over the four placeholder bytes turns everything from them on into one framed field and leaves the bytes before alone |
| `BinaryWriter.BinaryWriter.WriteArray` | src/include/postgres_binary_writer.hpp:285-305 | Appends the encoding of the values at the given rows of a list vector, at arbitrary offsets, and fails on every dimension mismatch |
| `BinaryWriter.BinaryWriter.WriteList` | src/include/postgres_binary_writer.hpp:430-472 | Appends the encoding of the list value of a row: empty form, dimension header, elements, patched length |
| `BinaryWriter.BinaryWriter.WriteStruct` | src/include/postgres_binary_writer.hpp:473-489 | Appends the encoding of the struct value of a row |
| `BinaryWriter.BinaryWriter.WriteScalar` | src/include/postgres_binary_writer.hpp:314-404 | Appends the encoding of a scalar |
| `BinaryWriter.BinaryWriter.WriteValue` | src/include/postgres_binary_writer.hpp:307-493 | Appends exactly the encoding of the value read off the vector at that row, touching no earlier byte; errors exactly where the format has no encoding |
| `BinaryWriter.BinaryWriter.WriteHeader` | src/include/postgres_binary_writer.hpp:50-54 | The 19 header bytes |
| `BinaryWriter.BinaryWriter.WriteFooter` | src/include/postgres_binary_writer.hpp:56-58 | The trailer word |
| `BinaryParser.BinaryParser.ReadInteger` | src/include/postgres_binary_parser.hpp:65-71 | The next n bytes as an unsigned word, or an error and never a read beyond the end |
| `BinaryParser.BinaryParser.ReadString` | src/include/postgres_binary_parser.hpp:145-152 | Exactly the requested bytes, or the out-of-buffer error |
| `BinaryParser.BinaryParser.ReadScalar` | src/postgres_binary_parser.cpp:163-347 | Takes exactly the bytes of the decoded scalar; NaN and infinite numerics become NULL or an error as configured |
| `BinaryParser.BinaryParser.ReadDims` | src/postgres_binary_parser.cpp:392-396 | All dimensions, lower bounds dropped, consuming eight bytes each |
| `BinaryParser.BinaryParser.ReadArray` | src/postgres_binary_parser.cpp:128-154 | One level of an array into rows off to off+count: those rows hold the lists the bytes decode to and every other row is unchanged |
| `BinaryParser.WriteEntries` | src/postgres_binary_parser.cpp:135-141 | The entry loop with its running offset |
| `BinaryParser.BinaryParser.ReadList` | src/postgres_binary_parser.cpp:348-399 | The LIST case: empty forms, dimension count check, elements |
| `BinaryParser.BinaryParser.ReadStruct` | src/postgres_binary_parser.cpp:400-419 | The STRUCT case: field count check, every field at the same row, other rows unchanged |
| `BinaryParser.BinaryParser.ReadValue` | src/postgres_binary_parser.cpp:156-423 | Stores at the row exactly what the decoding function gives for the bytes at the cursor, consumes exactly its length, and leaves every other row of the vector as it was; errors where that function has one |
| `BinaryParser.BinaryParser.CheckHeader` | src/postgres_binary_parser.cpp:54-73 | Passes if and only if 19 bytes are there and start with the signature; then the cursor stands behind them |
| `BinaryParser.BinaryParser.ReadRow` | src/postgres_binary_parser.cpp:37-49 | The column loop fills one row of the chunk with the decoded row |
| `BinaryParser.BinaryParser.ReadChunk` | src/postgres_binary_parser.cpp:20-52 | Appends the next rows of the buffer until the chunk is full or the buffer is used up, earlier rows kept; a non-positive count drops the rest |
| `RowFormat.ScanIsLongest` | src/postgres_binary_file_reader.cpp:98-140 | The scan result is a prefix made of whole rows, optionally ending just behind a trailer, and no longer prefix is |
| `FileReader.FileReader.FindLastCompleteRow` | src/postgres_binary_file_reader.cpp:98-140 | The pointer loop computes that scan |
| `FileReader.FileReader.SkipFields` | src/postgres_binary_file_reader.cpp:113-131 | The column loop finds the end of a row exactly if it lies within the buffer |
| `RowFormat.DecLocal` | src/postgres_binary_parser.cpp:156-423 | Decoding a value depends only on the bytes it consumes |
| `RowFormat.CellsLocal` | src/postgres_binary_parser.cpp:37-49 | And so does decoding a row |
| `RowFormat.ScanSplits` | src/postgres_binary_file_reader.cpp:98-140 | Cutting any window of a well-formed body at the scan result leaves two well-formed bodies whose tables concatenate to the table of the whole; an empty cut means the first row does not fit |
| `RowFormat.ParseIsTable` | src/postgres_binary_parser.cpp:20-52 | A chunk read from a well-formed body is the next rows of its table, never an out-of-buffer error |
| `RowFormat.ColumnsRoundTrip` | src/postgres_copy_to.cpp:304-311 | The fields of a row decode to the row with its NULs replaced, and skipping them by length words alone ends at the same place |
| `RowFormat.RowRoundTrip` | src/postgres_copy_to.cpp:304-311 | The same behind the column count |
| `RowFormat.FileRoundTrip` | src/postgres_copy_to.cpp:304-311 | Any written rows followed by the trailer form a well-formed body whose table is those rows with their NULs replaced |
| `FileReader.FillProgress` | src/postgres_binary_file_reader.cpp:49-96 | Each successful fill hands over at least one byte, so file_size - (file_offset - leftover) strictly decreases; it reports the end exactly when nothing is left or no buffer was given |
| `FileReader.FileReader.FillBuffer` | src/postgres_binary_file_reader.cpp:49-96 | Conservation: bytes handed to the parser followed by the bytes still unread (leftover, then rest of the file) are the bytes that were unread before, memmove and carry-over included |
| `FileReader.ScanFits` | src/postgres_binary_file_reader.cpp:76-90 | What a scan passes over fits its buffer, so whether all rows fit is decided by what is left |
| `FileReader.FillSplits` | src/postgres_binary_file_reader.cpp:76-95 | Every fill of a well-formed body splits its table at a row boundary, and the oversized-row error comes exactly from a first row longer than the buffer |
| `FileReader.FirstFillSplits` | src/postgres_binary_file_reader.cpp:71-90 | The first fill always succeeds for buffers of at least 19 bytes, header alone included |
| `FileReader.FileReader.Open` | src/postgres_binary_file_reader.cpp:28-31 | Opening passes if and only if buffer and file hold a header with the signature; the rows to serve are then the table of the file |
| `FileReader.FileReader.ReadChunk` | src/postgres_binary_file_reader.cpp:34-47 | Each chunk takes the next rows of what remains, full unless it is the last; errors only if some remaining row exceeds the buffer |
| `FileReader.FileReader.ReadAll` | src/postgres_binary_file_reader.cpp:34-47 | All chunks together, terminating |
| `FileReader.ReadFile` | src/postgres_binary_file_reader.cpp:34-96 | Refinement: for every well-formed file and every buffer of at least 19 bytes, repeated `ReadChunk` calls return exactly the rows of the one-shot parse in order if every row fits the buffer, and the oversized-row error otherwise |
| `CopyLifecycle.WriteRows` | src/postgres_copy_to.cpp:303-311 | The row loop appends the encoding of every row of the chunk, or fails |
| `CopyLifecycle.Connection.BeginCopyTo` | src/postgres_copy_to.cpp:70-75 | Opens a stream consisting of the header |
| `CopyLifecycle.Connection.CopyChunk` | src/postgres_copy_to.cpp:298-312 | The open stream grows by the whole chunk or, on failure, not at all |
| `CopyLifecycle.Connection.FinishCopyTo` | src/postgres_copy_to.cpp:96-108 | Closes the stream behind a footer and delivers it |
| `CopyLifecycle.CopySink.SinkCopy` | src/storage/postgres_insert.cpp:176-194 | A successful sink appends its rows to the rows sunk so far, keeps every delivered stream complete, counts them, and leaves no COPY open unless it may stay; succeeds exactly if the chunk can be written |
| `CopyLifecycle.CopySink.FinishCopyTo` | src/storage/postgres_insert.cpp:52-58 | Closes the open stream if there is one, losing and adding no row |
| `CopyLifecycle.StreamParses` | src/postgres_copy_to.cpp:70-120 | A complete stream is a header and a well-formed body whose table, read by this connector, is the rows put in with their NULs replaced |
| `CopyLifecycle.StreamReceived` | src/postgres_copy_to.cpp:70-120 | A complete stream, header included, is received by the binary format of the server as the rows put in, with their NULs replaced |
| `CopyLifecycle.StreamsReceived` | src/postgres_copy_to.cpp:70-120 | Several streams are received as the concatenation of their batches |
| `CopyLifecycle.SinkAll` | src/storage/postgres_insert.cpp:176-194 | Any sequence of sinks: all succeed exactly if each chunk can be written; then the rows sunk are all rows in order |
| `CopyLifecycle.Insert` | src/storage/postgres_insert.cpp:176-331 | Whole runs: all sinks succeed exactly if every value of every chunk is writable; after Finalize no COPY is open, `insert_count` is the number of rows, the number of streams is as the keep-alive flag says, and the server receives from all delivered streams exactly the rows of all chunks in order, NULs replaced |
| `CopyLifecycle.ReadStream` | src/postgres_binary_file_reader.cpp:34-96 | End to end: a stream produced by the writer, read as a file through a buffer of any size from 19 up, gives its rows back, NULs replaced |
| `ParallelScan.SetTablePages` | src/postgres_scanner.cpp:146-153 | More than one thread exactly if the scan is read-only, not over the text protocol and has at least two tasks, and then one per full task; one thread otherwise |
| `ParallelScan.NextAdvances` | src/postgres_scanner.cpp:411-420 | With at most TID_MAX pages expected, the bounds of a claim are exactly the next pages, claims are adjacent, never wrap in 64-bit arithmetic, strictly advance and stop exactly at TID_MAX |
| `ParallelScan.NextEndless` | src/postgres_scanner.cpp:411-416 | With more pages expected a claim is always granted |
| `ParallelScan.QuerySplit` | src/postgres_scanner.cpp:255-257 | The ctid ranges of adjacent claims share no tuple and miss none between them, although their bounds coincide |
| `ParallelScan.ClaimTakes` | src/postgres_scanner.cpp:404-424 | A claim takes the tuples of its range out of the unclaimed ones and nothing else |
| `ParallelScan.GlobalState.ParallelStateNext` | src/postgres_scanner.cpp:404-424 | Page index, batch index and worker flags after a claim, granted or refused |
| `ParallelScan.GlobalState.TryOpenNewConnection` | src/postgres_scanner.cpp:426-472 | The first worker always gets a connection, later ones exactly if the pool grants one |
| `ParallelScan.GlobalState.GetLocalState` | src/postgres_scanner.cpp:474-498 | A refused worker claims nothing; an unsplit scan gives the whole table to the connected one and closes the claims |
| `ParallelScan.GlobalState.ScanChunk` | src/postgres_scanner.cpp:507-535 | Conservation per call: tuples output plus tuples left (pending, own claim, unclaimed) are the tuples left before; a chunk that is not full means nothing is left |
| `ParallelScan.GlobalState.ScanAlone` | src/postgres_scanner.cpp:507-535 | A single worker delivers every tuple exactly once |
| `ScanInterleavings.ApplyInv` | src/postgres_scanner.cpp:404-535 | Every step of every worker keeps the invariant: claims chained from page 0, no claim held twice, every claim delivered or held |
| `ScanInterleavings.NeverTwice` | src/postgres_scanner.cpp:404-535 | At every point of every interleaving the tuples delivered are a sub-multiset of the table |
| `ScanInterleavings.ExactlyOnce` | src/postgres_scanner.cpp:404-535 | When all workers have stopped, the tuples delivered are exactly those of the table, whichever workers failed to connect |
| `ScanInterleavings.RunsEnd` | src/postgres_scanner.cpp:404-535 | The length of every run is bounded by a potential of the initial state |
| `ScanInterleavings.RunsGoOn` | src/postgres_scanner.cpp:404-535 | In every reachable state all workers have stopped or some step is possible |
| `ScanInterleavings.EndsOnlyWithin` | src/postgres_scanner.cpp:411-416 | The bound is exact: a run can end only if at most TID_MAX pages are expected |
| `ScanRefinement.CallIsRun` | src/postgres_scanner.cpp:507-535 | What one call of a worker does continues any run the other workers may have brought about, as steps of that worker; the others stay as they are and the deliveries grow by what it yields |
| `ScanRefinement.Join` | src/postgres_scanner.cpp:426-498 | A call of `GetLocalState` is a connecting step and, with a connection, a first task |
| `ScanRefinement.Scan` | src/postgres_scanner.cpp:507-535 | A call of `ScanChunk` is a sequence of claim, begin, read and finish steps of its worker, and its chunk is what the run delivers more; so the results on all interleavings hold of runs of these methods |
| `ArrayLiteral.CheckNeedsQuotes` | src/postgres_copy_to.cpp:122-149 | The scan decides: empty, white space at an end, or a special character anywhere |
| `ArrayLiteral.EscapeQuotes` | src/postgres_copy_to.cpp:151-161 | Appends the escaped text |
| `ArrayLiteral.QuoteAndEscapeIfNeeded` | src/postgres_copy_to.cpp:163-172 | Appends the text, quoted and escaped exactly if needed |
| `ArrayLiteral.CastListToPostgresArray` | src/postgres_copy_to.cpp:188-213 | The loop produces the array literal of the elements |
| `ArrayLiteral.CastStructToPostgres` | src/postgres_copy_to.cpp:229-248 | The loop produces the composite literal of the fields |
| `ArrayLiteral.NestedParser.AddString` | src/postgres_text_reader.cpp:33-45 | One element added, by the rules of list or composite; only lists clear the quoted flag |
| `ArrayLiteral.ParsePostgresNested` | src/postgres_text_reader.cpp:116-191 | The character loop with its escape skip, bracket stack and sticky flag computes the parse function, errors included, without reading out of bounds |
| `ArrayLiteral.ListParses` | src/postgres_text_reader.cpp:33-45 | Elements parse to themselves up to the text NULL, quoted or, if balanced, not |
| `ArrayLiteral.ListRoundTrip` | src/postgres_copy_to.cpp:188-213 | Every array literal parses, and to the elements written if and only if none is the text NULL |
| `ArrayLiteral.StructParses` | src/postgres_text_reader.cpp:69-89 | For any fields and column count, exactly what a composite literal parses to, or the column mismatch |
| `ArrayLiteral.StructRoundTrip` | src/postgres_copy_to.cpp:229-248 | A composite literal parses to its fields if and only if none is NULL and each that is the text NULL has a quoted field in front of it |
| `ArrayLiteral.FieldsLost` | src/postgres_text_reader.cpp:69-89 | Concrete composites that do not: a NULL field, and the text NULL |
| `TextPieces.LiteralParses` | src/postgres_text_reader.cpp:116-191 | For literals of arbitrary pieces, quoted or not, at any level: elements that account for the characters of their pieces are read exactly if no piece has a comma outside quotes and brackets, a bracket out of place or nothing in it, and only the last leaves something open; the elements are then determined |
| `TextPieces.ParseKeeps` | src/postgres_text_reader.cpp:116-191 | Whatever a literal parses to, putting the elements together again gives characters that stand in the literal in that order, closing brackets aside; no parse invents any other |
| `NestedLiteral.ConvertVector` | src/postgres_text_reader.cpp:357-381 | The dispatch on the type computes the conversion function |
| `NestedLiteral.ConvertList` | src/postgres_text_reader.cpp:205-231 | One parser collects the elements of all lists of the vector, entries with running offsets say which are whose, one call converts them all |
| `NestedLiteral.ConvertStruct` | src/postgres_text_reader.cpp:233-256 | One parser for all rows of the vector, whose row offset advances for non-NULL rows only; a row that reads what nobody has written is outside defined behaviour |
| `NestedLiteral.ConvertedLists` | src/postgres_text_reader.cpp:205-231 | For arbitrary texts: a vector of lists converts to given trees exactly if every text parses to as many elements, NULLs match, and the vector of all elements converts to all items |
| `NestedLiteral.SlotsAligned` | src/postgres_text_reader.cpp:83-94 | Every non-NULL row finds its own fields in its own slot if and only if no NULL row is in front of a non-NULL one |
| `NestedLiteral.ConvertedRows` | src/postgres_text_reader.cpp:233-256 | For arbitrary texts: all rows of one `ConvertStruct` call come back exactly if no NULL row is in front of a non-NULL one, every non-NULL row parses, and every column converts |
| `NestedLiteral.NullsInFront` | src/postgres_text_reader.cpp:242-249 | With a NULL row in front, and composites with at least one column, the conversion reads a row that was never written |
| `NestedRoundTrip.ConversionKeeps` | src/postgres_text_reader.cpp:205-256 | Whatever texts a vector of any nesting is converted from, they contain all characters of its values in order, closing brackets aside, and NULLs match |
| `NestedRoundTrip.SeenRoundTrip` | src/postgres_text_reader.cpp:116-256 | For texts from which the parsers outside have already taken any number of levels of quotes: the vector comes back exactly if it survives at that level |
| `NestedRoundTrip.TreesRoundTrip` | src/postgres_copy_to.cpp:176-296 | The values of a whole vector, lists and composites nested in any way and depth, written and converted back, are the same if and only if they survive: every literal at every level is read as its pieces, no NULL composite is in front of another among all those of its vector, and values whose quotes are taken off too early have no quotes of their own |
| `ListsOfLists.QuotedListKept` | src/postgres_copy_to.cpp:188-213 | With its quotes in place a list of texts or composites is read as its elements exactly if none is the text NULL |
| `ListsOfLists.QuotedRowKept` | src/postgres_copy_to.cpp:229-248 | With its quotes in place a composite is read as its fields exactly if they are readable in the sense of `ArrayLiteral.StructRoundTrip` |
| `ListsOfLists.OutermostKept` | src/postgres_copy_to.cpp:180-206 | The outermost literal of lists in lists is always read as its elements, at any depth |
| `ListsOfLists.BareParses` | src/postgres_copy_to.cpp:180-206 | A list written without quotes parses to its texts if and only if each is non-empty, not NULL, free of quotes and outer commas, and balanced (the last may leave brackets open) |
| `ListsOfLists.ListsOfListsRoundTrip` | src/postgres_copy_to.cpp:176-215 | A list of lists of texts comes back if and only if every inner list meets that condition |
| `ListsOfLists.CommaSplits` | src/postgres_copy_to.cpp:180-206 | A concrete list of lists that does not |
| `ListsOfLists.RowsInLists` | src/postgres_copy_to.cpp:180-206 | A concrete list of lists of composites that does come back, its comma being inside brackets |
| `ListsOfLists.NullRowShifts` | src/postgres_text_reader.cpp:242-249 | A list with a NULL composite in front of another does not come back |
| `ListsOfLists.NullRowShiftsLists` | src/postgres_text_reader.cpp:213-229 | Nor do two lists of a vector, the first with a NULL composite and the second with another |
| `ListsOfLists.NullRowUnwritten` | src/postgres_text_reader.cpp:242-249 | For a chunk column of composites, NULL and then another, the conversion is undefined |
| `ServerLiterals.ServerReadsArray` | src/postgres_copy_to.cpp:176-215 | An array of any number of dimensions, read by the rules of section 8.15.6 of the PostgreSQL manual (white space around bare elements dropped, NULL in any case of letters), is the value written if and only if no inner list is NULL and no element is the word NULL |
| `ServerLiterals.ServerReadsList` | src/postgres_copy_to.cpp:188-213 | In one dimension: every list of texts, NULLs and outer white space included, arrives if and only if none of the texts is NULL in any case of letters |
| `ServerLiterals.ServerReadsRow` | src/postgres_copy_to.cpp:229-248 | Every composite, read by the rules of section 8.16.6, arrives field by field, NULL fields and the text NULL included |
| `SentLiterals.SentArrayRead` | src/postgres_text_reader.cpp:116-231 | An array of texts as the server prints it is parsed to its elements if and only if the round brackets of its bare elements are in order |
| `SentLiterals.SmileLost` | src/postgres_text_reader.cpp:150-180 | A concrete one that is not: the text ":)" |
| `SentLiterals.SentRowRead` | src/postgres_text_reader.cpp:116-256 | A composite as the server prints it is parsed to its fields if and only if none is NULL or has a quote, each that is the text NULL has a quoted field in front of it, and the curly brackets of bare fields are in order |
| `SentLiterals.QuoteLost` | src/postgres_text_reader.cpp:116-191 | A concrete one: a field with a quote, which the server doubles |
| `CopyText.StoredPieces` | src/include/postgres_text_writer.hpp:65-74 | NUL-free pieces joined by NUL are stored as the same pieces joined by the replacement |
| `CopyText.TextWriter.WriteChar` | src/include/postgres_text_writer.hpp:31-79 | One character, escaped; NUL recurses into its replacement, which terminates, or is refused |
| `CopyText.TextWriter.WriteVarchar` | src/include/postgres_text_writer.hpp:81-87 | A whole text, or the refusal |
| `CopyText.TextWriter.WriteValue` | src/include/postgres_text_writer.hpp:89-98 | NULL as the raw marker, anything else escaped |
| `CopyText.TextWriter.WriteRow` | src/postgres_copy_to.cpp:334-342 | Tab-separated cells and the newline |
| `CopyText.TextWriter.WriteRows` | src/postgres_copy_to.cpp:333-343 | The rows of a chunk |
| `CopyText.StoredHasNoNul` | src/postgres_copy_to.cpp:21-28 | With any accepted replacement nothing stored contains NUL |
| `CopyText.CellRoundTrip` | src/include/postgres_text_writer.hpp:31-98 | A written cell contains no raw tab or newline, only a NULL decodes to NULL, and a text decodes to the text stored |
| `CopyText.TextRoundTrip` | src/include/postgres_text_writer.hpp:31-110 | Splitting the bytes on raw newlines and tabs, matching the marker and unescaping gives back every table, NULs replaced; no row is taken for the footer |
| `CopyText.NothingReplaced` | src/include/postgres_text_writer.hpp:65-74 | Without NULs nothing is refused and nothing changed |
| `CopyText.UniquelyDecodable` | src/include/postgres_text_writer.hpp:23-110 | Hence every table of optional NUL-free texts is recovered from its bytes |
| `Hstore.Skip` | src/postgres_hstore.cpp:19-23 | Advances to the next character that is not white space |
| `Hstore.ReadTokenAt` | src/postgres_hstore.cpp:32-89 | A quoted or bare token, NULL literal included; the cursor ends right behind it; errors at an unexpected end and for empty bare keys |
| `Hstore.ExpectArrowAt` | src/postgres_hstore.cpp:91-98 | The arrow behind white space, or the error |
| `Hstore.ParseHstore` | src/postgres_hstore.cpp:100-126 | The loop over pairs with its commas computes the parse function and terminates |
| `Hstore.HstoreRoundTrip` | src/postgres_hstore.cpp:100-126 | The canonical quoted form of every list of pairs, values NULL or not, parses back to it |
| `HstoreSyntax.ReadAsRendered` | src/postgres_hstore.cpp:32-126 | A text parses to a list of pairs if and only if it is a rendering of it: each token quoted or bare, with the backslashes it needs and any others, keys ending at =, values at a comma, any white space around tokens, arrows and commas, null in any case of letters bare for NULL, a value missing at the end, a comma behind the last pair |
| `HstoreSyntax.PairsRead` | src/postgres_hstore.cpp:100-126 | Every such rendering is read as its pairs |
| `HstoreSyntax.NullWord` | src/postgres_hstore.cpp:25-30 | The NULL literal is the word null in any case of letters |
| `Hstore.Get` | src/postgres_hstore.cpp:167-185 | The last binding of the key decides, absent and NULL both give NULL, parse errors pass through |
| `HstoreJson.JsonEscapeString` | src/postgres_hstore.cpp:128-165 | Appends the JSON string of a text |
| `HstoreJson.ToJson` | src/postgres_hstore.cpp:187-212 | The object of all pairs in order, or the parse error |
| `HstoreJson.JsonRoundTrip` | src/postgres_hstore.cpp:187-212 | Read by the grammar of section 7 of RFC 8259, the object yields the same pairs in order, duplicates included |
| `CatalogSlices.SliceResult` | src/storage/postgres_schema_set.cpp:22-63 | The shared-cursor loops compute the slices of the specification, for keys of any type |
| `CatalogSlices.SlicesTile` | src/storage/postgres_schema_set.cpp:22-40 | For distinct schema keys the slices are exactly the rows of their key and tile the result if and only if the rows come grouped in schema order |
| `CatalogSlices.SortedIsGrouped` | src/storage/postgres_schema_set.cpp:65-77 | The ORDER BY of the queries provides that |
| `CatalogSlices.InitializeTypes` | src/storage/postgres_type_set.cpp:68-86 | The grouping loop cuts a slice into its maximal runs of equal oid, whatever the oids |
| `CatalogSlices.RunsUnique` | src/storage/postgres_type_set.cpp:137-155 | There is only one such division |
| `CatalogSlices.OncePerType` | src/storage/postgres_type_set.cpp:137-155 | With equal oids adjacent, no type is created twice |

## Left out

Deliberate limits of members above:

- NestedRoundTrip.TreesRoundTrip: the texts of the leaves are opaque; casting them to their column types is not modelled. Where a row that was never written is read, nothing is claimed of the result.
- WireRoundTrip.RoundTrip: fields of 2 GiB and more are excluded, because the length is cast to `int32_t` unchecked; which values have no encoding is `Writability.Writes`.
- WireRoundTrip.ArrayRoundTrip: for values whose texts no setting alters, as are StructRoundTrip, FieldsRoundTrip and ScalarRoundTrip; `WireRoundTrip.RoundTrip` covers the others.
- ServerFormat.ServerReceives: for a list field of a record the receiver expects the identifier the code writes, that of the elements; the catalog's identifiers of array types are not modelled.
- BinaryWriter.BinaryWriter.WriteValue: says nothing where the code reads an unrelated list entry: a NULL inner list, or a NULL or empty list on the path that collects dimensions.
- BinaryWriter.BinaryWriter.WriteArray: the same for NULL inner lists and for NULL or empty lists on that path.
- BinaryWriter.BinaryWriter.WriteList: the same.
- BinaryWriter.BinaryWriter.WriteScalar: the ENUM and GEOMETRY cases are left out, since they rest on dictionaries and types that are not part of this model.
- BinaryParser.BinaryParser.ReadScalar: the UINTEGER, ENUM, GEOMETRY, JSONB, CTID, blank-padded and numeric-as-double cases are left out.
- BinaryParser.BinaryParser.ReadValue: says nothing where the code leaves defined behaviour: array element counts beyond `uint32_t`, negative string lengths, numerics outside the readable range. What `ReadDecimal` returns for the latter is still tied to their digits.
- FileReader.FileReader.FillBuffer: requires the parser to have used up its buffer, as all callers ensure; the parser's buffer is a snapshot of the read buffer, so the pointer into memory about to be moved is not modelled.
- CopyLifecycle.Connection.BeginCopyTo: binary format only; in text format nothing is sent when a COPY begins.
- CopyLifecycle.Connection.CopyChunk: binary format only.
- CopyLifecycle.Connection.FinishCopyTo: binary format only; the text footer is `CopyText.TextWriter.WriteFooter`.
- CopyLifecycle.CopySink.SinkCopy: rows are the binary format's; the text format's `CopyChunk` is modelled by `CopyText`, outside the insert's life cycle. Chunks with the unmodelled lists named at `WriteValue` are excluded.
- ParallelScan.GlobalState.ScanChunk: requires at most 2^32 - 1 pages expected, the exact bound by `ScanInterleavings.EndsOnlyWithin`.

What the model changes in form:

- DuckDB vectors are values that methods take and return, so aliasing of vectors is not captured; what a write leaves unchanged is stated instead.
- Big-endian bytes are written directly; the byte-swap macros and the host's byte order are not modelled.
- Arithmetic that leaves its storage type while reading or writing a decimal is an overflow error in the model, undefined or wrapping behaviour in the code.
- TIME_TZ values are a 64-bit and a 32-bit word, as on the wire; DuckDB packs them into 40 and 24 bits, which its values always fit.
- `D_ASSERT` checks are left out, as in release builds.
- Texts are strings of bytes; no encoding or collation is modelled, and white space is that of the C locale.
- `insert_count` does not wrap around. `column_ids` is the identity, as in the file reader.
- The server's side (ctid order, the binary formats of COPY, COPY text decoding, array, composite and hstore literals, RFC 8259 strings) is defined in the model from the formats' descriptions; JSON readers are modelled for objects of strings and nulls.

What the repository does and the model does not:

- GEOMETRY and EWKB, ENUM dictionaries, JSONB, CTID columns, blank-padded characters and UINTEGER: they rest on type information that is not part of this model or only add one-line cases.
- FLOAT and DOUBLE arithmetic, numerics read as DOUBLE: bits are opaque words.
- libpq, files and sockets: the server accepts every COPY and files are read completely; the errors of both are not part of this model.
- Connection pools, snapshots, transactions and secrets: whether a pool grants a connection is a free choice of every step.
- SQL text, filter and limit pushdown, type-name and option lookups.
- The plain INSERT path, BLOB and GEOMETRY casts to text, the page statistics updated by `FinalizeCopy`.
- The order of output chunks by batch index, and scans that materialise into a collection.
- CTID, BLOB and GEOMETRY text parsing.
