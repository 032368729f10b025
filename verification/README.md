# Wwise file package (PCK) codec and repacker, modelled in Dafny

This project models the `pck` package of a tool for the hybrid BNK/WEM
variant of the Wwise File Package format (`pck/file.go`). The model is
purely functional: a package is a byte sequence, and every operation is a
function from bytes to a `Result`.

A package begins with a header. The header holds a 4-byte identifier and a
`uint32` header-and-indexes length field. After them comes an opaque region.
Its size is not stored in the file; the file name decides it: 36 bytes for
names ending in `sfx.pck`, 68 for `english(us).pck`, ignoring case. Two
index tables follow, BNK first and then WEM. Each table is a `uint32` count
followed by 24-byte records. A record is six little-endian `uint32` fields:
ID, type, length, unknown, absolute offset, unknown. The embedded data
follows the tables.

What is modelled:

- `Bytes`: octets, Go's `uint32` with wrap-around (`Wrap32`), and
  little-endian 32-bit fields. It also covers the concatenation of blocks.
- `Decimal`: the `%d` rendering of IDs used in embedded-file names.
- `Format`: the entities (header, index record, embedded-file view,
  package) and the error kinds. It also defines the exact bytes of a header
  and of both tables, and what a section reader yields.
- `Parse`: `Open` and `NewFile`. They cover the file-name rule, the
  sequential parse with its short-read failures, and one view per record.
- `Serialize`: `WriteTo`, which writes the header, tables and every view's
  data, tallying the byte count.
- `Repack`: the replacement lookup tables and the new header and tables.
  Lengths are `uint32`, offsets come from a running `uint32` cursor, and the
  length field is the data-area start minus 8. `Repack` then emits every
  block, either a replacement or a copy of the original range.

The main results are these:

- `NewFile` and `WriteTo` are inverse on header and tables.
- A package in the canonical layout is written back byte for byte.
- A repack's output, read back, has the planned tables, and its views read
  the replacement or original bytes.
- A repack with no replacements of a package in the canonical layout
  reproduces it, at any size.
- A repack of a package that opens fails exactly when a non-replaced
  record's copy would run past the end of the source, and the error names
  the first such record. A package that does not open fails with the
  open's error.

Two behaviours of the repacker are worth stating plainly:

- Several replacements for the same kind and ID are not an error: the last
  one in the list wins.
- A replacement whose ID matches no record is ignored.

## Model

| member | source | states |
|---|---|---|
| Parse.UnknownSizeRule | pck/file.go:134-144 | The opaque region is 36 bytes exactly when the lower-cased name ends in `sfx.pck`. It is 68 exactly when the name ends in `english(us).pck`. Any other name is unsupported, and no name has both suffixes. |
| Parse.UnknownSizeIgnoresCase | pck/file.go:136 | The size rule gives the same answer for a name and its lower-cased form. |
| Parse.Open | pck/file.go:134-157 | Opening fails with `UnsupportedFile` exactly when the name rule rejects the name. Otherwise it is the parse with the size the rule picked. |
| Parse.ParseHeader | pck/file.go:67-79 | The header parse succeeds exactly when the source holds 8 + size bytes. A short source fails in the identifier, the length field or the opaque region, according to where the bytes run out. The opaque region has the requested size. |
| Parse.ParseRecords | pck/file.go:86-93 | Reading n records succeeds exactly when 24·n bytes remain, yields n records, and fails only with a short read. |
| Parse.ParseRecordsShort | pck/file.go:87-92 | A truncated table fails at the record the bytes run out in: the index reported is the number of whole records that fit. |
| Parse.ParsedRecordAt | pck/file.go:87-92 | Record i of a table that was read is decoded from the i-th 24-byte chunk after the count: bytes pos + 24·i to pos + 24·i + 24. |
| Parse.NewFileOutcome | pck/file.go:62-107 | A parse succeeds exactly when the layout that the counts announce fits in the source. Every failure is a short read, named after where the bytes run out: the identifier, the length field, the opaque region, the BNK count, the BNK record that is cut short, the WEM count, or the WEM record that is cut short. On success the opaque region has the requested size and the BNK count is the decoded count field. |
| Parse.NewFile | pck/file.go:109-127 | A parsed package carries one view per record, in table order. Each view is named `{ID}.bnk` or `{ID}.wem` and reads the record's offset and length. |
| Parse.ParseEncoded | pck/file.go:62-107 | Parsing any bytes that begin with an encoded header and two tables gives back that header and those tables, whatever follows. |
| Parse.ParsedPrefix | pck/file.go:62-107 | A successful parse consumed exactly the encoding of what it returned: the source up to the data-area start is the re-encoded header and tables. |
| Format.NameIdentifiesId | pck/file.go:115 | Two embedded files of one kind have the same name exactly when they have the same ID. |
| Decimal.ParseFormat | pck/file.go:115 | The decimal rendering of an ID reads back as that ID. |
| Decimal.FormatParse | pck/file.go:115 | Any canonical decimal string is the rendering of the number it denotes. |
| Format.DecodeEncodeIndex | pck/file.go:34-42 | A 24-byte record written and read back is the same record. |
| Format.EncodeDecodeIndex | pck/file.go:34-42 | 24 bytes read as a record and written back are the same bytes. |
| Bytes.DecodeEncodeU32 | pck/file.go:72 | A little-endian `uint32` written and read back is the same value. |
| Bytes.EncodeDecodeU32 | pck/file.go:72 | Four bytes read as a little-endian `uint32` and written back are the same bytes. |
| Serialize.WriteTo | pck/file.go:206-281 | The count `WriteTo` reports is the number of bytes it writes. |
| Serialize.WriteToKeepsPrefix | pck/file.go:206-251 | For any parsed package, whatever its data, the written output agrees with the source up to the data-area start: the header and both tables are written back as they were read. |
| Serialize.WriteToCount | pck/file.go:206-281 | When every record's range lies in the source, the count is the header size plus 4 + 24 per record for each table plus the sum of the record lengths. |
| Serialize.TotalSizeInRange | pck/file.go:258-278 | When every record's range lies in the source, copying the views yields exactly the sum of the record lengths. |
| Serialize.WriteToParses | pck/file.go:206-251 | Parsing the written output gives back the same header and index tables. |
| Serialize.WriteToRoundTrip | pck/file.go:206-281 | A parsed package whose data runs back to back from the end of the tables to the end of the source is written back byte for byte, and the count is its size. |
| Repack.ReplacementMapLastWins | pck/file.go:328-340 | An ID is in a kind's lookup table exactly when some replacement of that kind names it. It maps to the data of the last such replacement in the list. |
| Repack.DataAreaStart32Wraps | pck/file.go:363-366 | The data-area start summed from `uint32` conversions equals the exact start reduced modulo 2^32. |
| Repack.PlanFields | pck/file.go:343-368 | Both tables keep their counts, their order, and each record's ID, type and unknown fields. A replaced record's length is `uint32(len(data))`, and every other record keeps its length. The header keeps its identifier and opaque region, and its length field is the data-area start minus 8 in `uint32`. |
| Repack.AssignOffsetAt | pck/file.go:370-378 | The cursor loop gives record i the start plus the lengths before it, as a `uint32`, and changes nothing else in the record. |
| Repack.AssignOffsetsEnd | pck/file.go:370-378 | The final cursor is the start plus all lengths, as a `uint32`. |
| Repack.PlanContiguous | pck/file.go:370-378 | Taken together, BNK records then WEM records, the new offsets run back to back from the data-area start, modulo 2^32. |
| Repack.PlanExact | pck/file.go:362-378 | When the new layout ends below 2^32, the length field is exactly the start minus 8. Each offset is then exactly the start plus the preceding lengths, and every record ends where the next begins. |
| Repack.EmitBlock | pck/file.go:427-439 | One record's data step succeeds exactly when the record is replaced, its length is 0, or its original range lies in the source. Its failure names the kind and the ID. |
| Repack.EmitBlockBytes | pck/file.go:427-436 | An emitted block is the replacement's data, or else exactly the bytes of the original record's view, as many as its length. |
| Repack.EmitBlocksSucceeds | pck/file.go:424-441 | A table's data loop succeeds exactly when every record can be emitted, and block i is then what record i emits. |
| Repack.EmitBlocksFailure | pck/file.go:424-441 | A failed data loop reports the first record that could not be emitted. |
| Repack.RepackSucceeds | pck/file.go:422-461 | For an opened package, the repack succeeds exactly when every BNK record and every WEM record can be emitted. |
| Repack.RepackFailsAt | pck/file.go:422-461 | A failed repack of an opened package reports the first BNK record that cannot be emitted. If every BNK record can be emitted, it reports the first WEM record that cannot. |
| Repack.RepackOutputParses | pck/file.go:362-413 | Parsing the output gives back the planned header and tables. |
| Repack.RepackCount | pck/file.go:419-461 | The reported count is the output size with the data-area start taken as a `uint32`. It is exactly the output size when the source is below 4 GiB. |
| Repack.RepackBnkView | pck/file.go:424-441 | Reading the output back, BNK view i keeps its name. It reads the replacement's data when the ID is replaced, and otherwise the bytes the original view read. |
| Repack.RepackWemView | pck/file.go:444-461 | The same for WEM view i. |
| Repack.RepackReadBack | pck/file.go:313-463 | Read back, the output has the planned tables and the canonical layout, with the length field at the start minus 8. Written out again it is reproduced byte for byte, and the count is its size. |
| Repack.DuplicateIdsShareReplacement | pck/file.go:347-360 | Records of one table that share a replaced ID all take its length, and all emit its data. |
| Repack.PlanKeepsLayout | pck/file.go:362-378 | With no replacements, a package already in the canonical layout, header length field included, gets back exactly its own header and tables, at any size: its offsets are `uint32` values, so the cursor wraps at most after the last record. |
| Repack.NoOpIsWriteTo | pck/file.go:380-461 | With empty lookup tables, repacking a package in the canonical layout writes exactly what `WriteTo` writes for it, at any size. The count is `WriteTo`'s count with the data-area start taken as a `uint32`, so the two agree whenever the start is below 2^32. |
| Repack.NoOpRepack | pck/file.go:313-463 | Whatever its size, repacking with no replacements a package in the canonical layout, length field included, reproduces it byte for byte and reports its size. |

## Left out

- File-system and stream I/O: `os.Open`, `os.Create`, `os.ReadFile`, `Close`, `bufio` buffering and `Seek`. A package is its contents `s`, and an open or create error of the host is not modelled.
- Replacement paths: a replacement carries its already loaded data, so the `Path` field and the error of reading it are left out.
- Write errors of the output stream, and the partially written output and count returned with an error: a failing write or repack yields only its error.
- `UnpackTo`: it extracts every view to its own file. It is directory and file creation around the views, and the views themselves are modelled.
- `String`: a textual listing for display.
- The command-line front end and the `bnk` package are not part of this model.
- Error message text: errors are the structured values `UnsupportedFile`, `ShortRead(field)` and `ShortCopy(kind, id)`.
- `ToLower`: folds ASCII letters only. The Unicode case mappings of `strings.ToLower` beyond ASCII are left out.
- Table preallocation: the reader reserves room for as many records as a count field announces before reading any of them. A count near 2^32 on a short file may then exhaust memory instead of failing with a short read. The model assumes the reservation succeeds, so `Parse.ParseRecords` and `Parse.NewFileOutcome` promise the short read.
- Repacking in place: the repacker opens the input and then creates the output file. When both paths name the same file, creating the output truncates the input before its data is copied. The model assumes the output file is distinct from the input, so `s` stays unchanged throughout a repack; `Repack.NoOpRepack`, `Repack.RepackBnkView` and `Repack.RepackWemView` rest on that.
- `Repack.Repack`: a replacement whose type is neither `bnk` nor `wem` finds no lookup table for its kind, and storing into the missing (nil) table panics. The model requires `KnownTypes` instead of modelling the panic.
- `Serialize.WriteTo`: the `int64` count is unbounded here; an `int64` overflow would need more than 2^63 bytes.
- `Repack.RepackReadBack`, `Repack.RepackBnkView`, `Repack.RepackWemView`: proved only for outputs below 4 GiB. Above that the `uint32` offsets wrap and a reader would look elsewhere.
