# bintotxt, modelled in Dafny

`bintotxt` reads a binary dump of a directed, weighted graph and writes its
edge list as text. The file holds one little-endian signed 16-bit vertex
count, then zero or more records `(from, to, weight)` of three little-endian
signed 16-bit values each, up to the end of the file. The decoder
(`readGraph`) fails on a truncated header, on a record cut short, and on a
vertex index outside `[0, numVertices)`. The emitter (`writeEdges`) writes a
header line and then one line `(from, to, weight)` per edge, in order, in
signed decimal.

The model has six modules:

- `Wire` (`wire.dfy`): bytes, int16 values, the little-endian two's-complement
  decoding and encoding, and `ReadInt16`, which reads one int16 the way Go's
  `binary.Read` does. No byte left gives `io.EOF`, one byte left gives
  `io.ErrUnexpectedEOF`, and two bytes give a value.
- `Decoder` (`decoder.dfy`): `Edge`, the error kinds, the reference
  definition `Decode` / `DecodeRecords`, and `ReadGraph`. `ReadGraph` is the
  source's cursor loop, proved equal to `Decode`.
- `DecoderProperties` (`decoder_properties.dfy`): an encoder that `Decode`
  inverts, and the exact conditions for success and for each error.
- `DecimalText` (`decimal.dfy`): signed decimal rendering, as Go's `%d`
  prints it, and its inverse.
- `Emitter` (`emitter.dfy`): `FormatEdge`, `WriteEdges` (the source's loop),
  and a reader for reports. The reader shows that a report lists exactly its
  edges.
- `Optional` (`option.dfy`): an `Option` datatype used by the parsers.

The input file is a `seq<Byte>`, and the cursor is the file offset. The output
file is the sequence of lines written to it. In the file, `Fprintln` ends each
line with a newline.

Errors are reported in stream order, as in the source. A record with a bad
index is rejected as soon as it is complete, before anything after it is read.
So an invalid record followed by a truncated one gives `BadIndex`, not
`TruncatedRecord`. `TruncatedRecord` names the field whose read failed: one
left-over byte fails on `from`, two or three on `to`, four or five on
`weight`. These are the three distinct error returns at lines 45-57.

A vertex count is meant to be non-negative, but the code never checks it,
and the model follows the code. With a count of zero or less, a first
complete record is rejected as a bad index, and only a bare two-byte header
decodes (`NonPositiveCountHasNoEdges`). A first record cut short still fails
as a truncated record, because its indices are never checked.

## Model

| member | source | states |
|---|---|---|
| `Wire.DecodeInt16` | bintotxt/bintotxt.go:31 | an int16 read little-endian is negative exactly when the high byte's top bit is set, and its low byte is the first byte |
| `Wire.EncodeInt16` | bintotxt/bintotxt.go:31 | an int16 is stored in two bytes, and the second byte's top bit is the sign |
| `Wire.DecodeEncodeInt16` | bintotxt/bintotxt.go:31 | reading back the two bytes of any int16 gives that int16 |
| `Wire.EncodeDecodeInt16` | bintotxt/bintotxt.go:31 | every pair of bytes is the encoding of the int16 it decodes to |
| `Wire.ReadInt16` | bintotxt/bintotxt.go:41-57 | one read at the end of input is EOF; with one byte left it is an unexpected EOF; otherwise it yields the int16 at the cursor |
| `Decoder.DecodeRecords` | bintotxt/bintotxt.go:38-66 | accepted edges number exactly a sixth of the record bytes, and every one has both indices in `[0, numVertices)`; a record error is never a header error |
| `Decoder.Decode` | bintotxt/bintotxt.go:29-68 | readGraph's result as a function of the file's bytes: the header error happens exactly for inputs under two bytes; a success carries the header value and one edge with valid indices per six bytes after it |
| `Decoder.ReadGraph` | bintotxt/bintotxt.go:21-69 | the cursor loop (header read, then triples until EOF at a record boundary, validate, append) returns exactly `Decode` of the input |
| `DecoderProperties.EncodeGraph` | bintotxt/bintotxt.go:18-20 | a file of E edges is 2 + 6E bytes long |
| `DecoderProperties.DecodeEncodeRecords` | bintotxt/bintotxt.go:38-66 | the record area of valid edges decodes to those edges in order |
| `DecoderProperties.RoundTrip` | bintotxt/bintotxt.go:29-68 | any vertex count and edges with valid indices, encoded as a header and int16 triples, decode to exactly that count and those edges in order |
| `DecoderProperties.DecodeRecordsCharacterised` | bintotxt/bintotxt.go:38-66 | the record area decodes if and only if it is whole records with valid indices, and then edge k is record k |
| `DecoderProperties.DecodeSucceedsIffWellFormed` | bintotxt/bintotxt.go:29-68 | the decode succeeds if and only if the input is 2 + 6k bytes with all indices valid; the result is then the header value and the k records in read order, all valid |
| `DecoderProperties.TruncatedHeaderFails` | bintotxt/bintotxt.go:31-34 | the header error happens if and only if the input has fewer than two bytes |
| `DecoderProperties.TruncatedRecordReported` | bintotxt/bintotxt.go:41-57 | a record area that ends 1 to 5 bytes into a record, with every earlier record valid, is rejected naming the field that could not be read |
| `DecoderProperties.TruncatedFileReported` | bintotxt/bintotxt.go:41-57 | a file of 2 + 6k + r bytes, 1 <= r <= 5, with valid complete records fails with the truncated-record error for the field that r bytes cannot fill, and returns no edges |
| `DecoderProperties.TruncatedInputFails` | bintotxt/bintotxt.go:31-57 | any input whose length is not 2 + 6k fails, whatever its contents |
| `DecoderProperties.BadIndexReported` | bintotxt/bintotxt.go:59-62 | the first complete record with an index outside `[0, n)` makes the record area fail naming its from and to |
| `DecoderProperties.BadIndexFileReported` | bintotxt/bintotxt.go:59-62 | the first complete record of a file with an out-of-range index makes the decode fail naming its from and to, whatever follows |
| `DecoderProperties.NonPositiveCountHasNoEdges` | bintotxt/bintotxt.go:60-61 | the header is never range-checked; with a count of zero or less the decode succeeds only on a bare two-byte header, and a complete first record fails as a bad index naming its from and to |
| `DecoderProperties.MinWeightRoundTrip` | bintotxt/bintotxt.go:54-65 | a weight of -32768 decodes unchanged |
| `DecoderProperties.OutOfRangeExample` | bintotxt/bintotxt.go:60-61 | three vertices and the record (3, 0, 5) fail with the bad-index error naming from = 3 and to = 0 |
| `DecimalText.Digits` | bintotxt/bintotxt.go:90 | a non-negative number prints as a non-empty string of decimal digits with no leading zero |
| `DecimalText.Decimal` | bintotxt/bintotxt.go:90 | Go's `%d` of a signed integer: the text is non-empty and starts with '-' exactly when the number is negative |
| `DecimalText.DecimalShape` | bintotxt/bintotxt.go:90 | `%d` text starts with a digit exactly for non-negative numbers, and every character after the first is a digit |
| `DecimalText.DigitsValueOfDigits` | bintotxt/bintotxt.go:90 | the digits of n read back as n |
| `DecimalText.ParseDecimalOfDecimal` | bintotxt/bintotxt.go:90 | the signed decimal text of x reads back as x |
| `DecimalText.DecimalInjective` | bintotxt/bintotxt.go:90 | different numbers never print the same |
| `Emitter.FormatEdge` | bintotxt/bintotxt.go:90 | the `"(%d, %d, %d)"` line of an edge: from, to and weight in signed decimal, separated by a comma and a space, inside parentheses; `ParseFormatEdge` proves it reads back as exactly that edge |
| `Emitter.IsReportOf` | bintotxt/bintotxt.go:82-95 | what a report of a list of edges is: the header line of line 82, then for each edge, in order, its `FormatEdge` line |
| `Emitter.WriteEdges` | bintotxt/bintotxt.go:73-98 | the output is the header line followed by exactly one line per edge, in input order, so one line more than there are edges |
| `Emitter.ParseFormatEdge` | bintotxt/bintotxt.go:88-91 | an edge line `(from, to, weight)` reads back as exactly that edge, with raw zero-based indices |
| `Emitter.ParseReportOf` | bintotxt/bintotxt.go:82-95 | reading back a report gives exactly its edges, in order |
| `Emitter.ReportDeterminesEdges` | bintotxt/bintotxt.go:82-95 | two different edge lists never produce the same report |
| `Emitter.ReportExample` | bintotxt/bintotxt.go:88-91 | the edges (0, 1, 10) and (1, 0, -5) give the header, `(0, 1, 10)` and `(1, 0, -5)` |
| `Emitter.MinWeightExample` | bintotxt/bintotxt.go:90 | a weight of -32768 prints as `-32768` |

## Left out

- Opening and closing the input and output files, and `defer file.Close()` (lines 23-27 and 75-79): the input is a byte sequence and the output a returned sequence of lines. So the open and create failures do not exist in the model. Neither do read failures other than running out of input: those are the non-EOF errors of `binary.Read` at lines 32-33, 45-46, 50-51 and 55-56. Reading a byte sequence cannot fail in any other way.
- Write failures partway through the report (lines 83-84 and 92-93): these are I/O effects. The model writes every line.
- `main` (lines 103-132): flag parsing, the usage message, and the console summary and error messages.
- The wording of the error messages: errors are the values `TruncatedHeader`, `TruncatedRecord(field)` and `BadIndex(from, to)`. The vertex count 0 that Go returns beside an error is not kept. A `Failure` holds no count and no edges.
- The bytes of the output file: report lines are Dafny `string`s, sequences of Unicode characters, not the UTF-8 bytes written to the file. The Cyrillic header of line 82 takes more bytes in the file than it has characters in the model.
- The newline that `Fprintln` adds after each line: the report is the sequence of lines without their terminators.
- `Decoder.ReadGraph` reads from an immutable byte sequence with an integer cursor. It does not model a stream object shared with other readers.
