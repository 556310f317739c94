# PCK archive decoder, modelled and verified in Dafny

PyPck reads "PCK" archives: a flat binary container for a game's asset files.
Its core has two layers:

- **`InputStream`** is a bounded byte reader. It holds an immutable buffer and
  a cursor. Every read is checked against the end of the buffer. Nothing
  checks that the size is not negative: a negative size passes the check and
  moves the cursor backwards. In the model, sizes are natural numbers, so the
  cursor only moves forward and stays inside the buffer (see "Left out").
- **`PCKFile.parse`** decodes the archive in one pass:
  - a signed 32-bit archive type;
  - a meta table of `(index, name)` pairs, where a later entry overwrites an
    earlier one with the same index;
  - one extra int32 when some meta name is `"XMLVERSION"`;
  - the file entries `(size, type, name)`;
  - then, for each file entry in order, its properties followed by exactly
    `size` payload bytes.
  - Every meta entry, file entry and property is followed by 4 skipped
    bytes.
  - Integers are 4-byte big-endian two's complement.
  - Strings are an int32 count of UTF-16 code units, followed by that many
    big-endian code units.

The project keeps the source's own shape.

- `input_stream.dfy`: class `InputStream`, with the fixed buffer, its recorded
  size and a mutable `pos`.
  - `Read`, `Increment` and `GetSubStream` are methods that change `pos`.
  - The pure queries are functions and predicates.
  - All of them are specified against `Take`, the reference meaning of a
    bounded read.
- `pck_file.dfy`: class `PCKFile`, whose fields `pckType`, `meta`,
  `fileEntries` and `data` are updated in place.
  - Its methods (`Parse`, `ReadMetaEntries`, `ReadFileEntries`, `ReadInts`,
    `ReadInt`, `ReadString`) follow the source's statements and loops.
  - Each is proved to compute exactly what a pure layout function computes
    from the bytes at the cursor: the result, the new field values, the new
    cursor, and the error when it fails.
- `pck_format.dfy`: the pure layout functions (`IntsAt`, `IntAt`, `StringAt`,
  `MetaSection`, `FileEntrySection`, `RecordAt`, `ParseAt`, `Decode`).
  - The source's promises are proved as lemmas here: bytes consumed per
    field, last write wins in the meta table, the `"XMLVERSION"` rule,
    `max(count, 0)` iterations, the pairing of decoded files with file
    entries, and that a successful parse ends inside the buffer.
- `bytes.dfy`: the big-endian int32 and UTF-16BE code-unit codecs, and
  their round trips.
- `pck_encoding.dfy`: an encoder of the model's own, written from the layout
  the decoder reads (the source's own writers are unfinished).
  - The round trip: decoding the encoding of any well-formed archive, with
    any bytes after it, yields exactly the object state the archive
    describes, and stops at the end of the encoding.
- `pck_trailing.dfy`: the decoder depends on exactly the bytes it consumes.
  - A parse that did not run out of input has the same outcome whatever bytes
    are appended. This covers success and the failures on a negative length
    or an unknown meta index.
  - A successful decode is unchanged when the buffer is cut right after the
    byte where it stopped.
  - Cutting any byte off the end of an encoded archive makes decoding fail
    with end-of-stream.
- `results.dfy`: the error kinds and the result type that stand in for
  Python's exceptions.
  - `EndOfStream` stands for `EndOfStreamException`.
  - `UnknownMetaIndex` stands for the `KeyError` of the meta lookup.
  - `NegativeLength` is a deviation, described under "Left out".

A failure is returned as a `Failure` value. Every reader passes it on
unchanged, as an uncaught exception would propagate.

## Model

| member | source | states |
|---|---|---|
| `InputStreams.Take` | InputStream.py:23-26 | a read of `size` bytes at `pos` succeeds iff `pos + size <= len(data)`, returns exactly `size` bytes, and otherwise fails with end-of-stream at that position |
| `InputStreams.TakeIsSlice` | InputStream.py:26 | a successful read returns the slice `data[pos:pos+size]` |
| `InputStreams.TakeConsecutive` | InputStream.py:31-34 | reading `m` then `n` bytes succeeds iff reading `m+n` does, and the two results concatenate to the single read |
| `InputStreams.TakeExtend` | InputStream.py:23-26 | a read that succeeded returns the same bytes when more bytes follow in the buffer |
| `InputStreams.InputStream.constructor` | InputStream.py:14-17 | the new reader holds the given buffer, records its length, starts at 0 and satisfies the invariant `0 <= pos <= len(data)` |
| `InputStreams.InputStream.IsValidPosition` | InputStream.py:39-40 | a position is valid iff it is no further than the end of the buffer; nothing bounds it from below |
| `InputStreams.InputStream.HasEnoughSpace` | InputStream.py:42-43 | the bounds check holds iff `pos + size <= len(data)`; for a position and size that are not negative that is exactly when `Take` succeeds; a negative size from a position inside the buffer always passes it |
| `InputStreams.InputStream.Increment` | InputStream.py:19-21 | the cursor moves by `amount` iff that stays inside the buffer; otherwise it fails and the cursor stays; the invariant is kept |
| `InputStreams.InputStream.ReadWithPos` | InputStream.py:23-29 | reads at an explicit, natural-number position with the bounds rule of `Take`, never touching the cursor |
| `InputStreams.InputStream.Read` | InputStream.py:31-34 | returns what `Take` returns at the cursor; the cursor advances by `size` on success and is unchanged on failure; the invariant is kept |
| `InputStreams.InputStream.GetSubStream` | InputStream.py:36-37 | succeeds iff the read does; the parent advances by `size`; the result is a fresh valid reader over exactly those bytes, at position 0 |
| `InputStreams.InputStream.AtEnd` | InputStream.py:39-46 | holds iff `pos >= len(data)`, i.e. iff `hasNext` does not |
| `InputStreams.InputStream.HasNext` | InputStream.py:42-49 | holds iff a one-byte read at the cursor would succeed |
| `Bytes.DecodeInt32` | PCKFile.py:87-88 | four big-endian bytes read as two's complement; the value is negative iff the top bit is set |
| `Bytes.DecodeEncodeInt32` | PCKFile.py:87-88 | decoding the 4-byte big-endian encoding of any int32 gives it back |
| `Bytes.EncodeDecodeInt32` | PCKFile.py:87-88 | every 4-byte sequence is the encoding of its decoded value, so the int32 codec is a bijection |
| `Bytes.DecodeInts` | PCKFile.py:88 | `4k` bytes unpack to exactly `k` values |
| `Bytes.DecodeUnits` | PCKFile.py:94 | `.decode("UTF-16BE")` as raw code units: `2n` bytes give exactly `n` units; with `EncodeUnits` it is a bijection (`DecodeEncodeUnits`, `EncodeDecodeUnits`); `StringAtLayout` states that a string read yields the units of exactly the bytes after its count |
| `Bytes.DecodeEncodeUnits` | PCKFile.py:94 | decoding the big-endian bytes of any code-unit string gives it back |
| `Bytes.EncodeDecodeUnits` | PCKFile.py:94 | every even-length byte sequence is the encoding of its code units |
| `PckFormat.Iterations` | PCKFile.py:34 | `range(count)` runs `count` times for a positive count and never otherwise |
| `PckFormat.Repeat` | PCKFile.py:34-39 | the loop `for _ in range(count)` over one reader; no contract of its own: `RepeatStep` states one iteration, `RepeatShape` the items it appends, `RepeatBounds` where it ends |
| `PckFormat.RepeatStep` | PCKFile.py:34-39 | one iteration stops with the item's error, or goes on after the item with the item appended |
| `PckFormat.RepeatShape` | PCKFile.py:34-39 | a successful loop appends exactly `k` items after those already held, the first being the item read at the start position |
| `PckFormat.RepeatBounds` | PCKFile.py:34 | a loop over readers that never move backwards nor past the buffer ends at or after its start; once it has read at least one item, or whenever it started inside the buffer, it ends inside the buffer; with no item to read it ends where it started |
| `PckFormat.MetaEntriesAdvance` | PCKFile.py:46-50 | a meta entry read never ends before its start nor past the end of the buffer |
| `PckFormat.FileEntriesAdvance` | PCKFile.py:71-74 | a file entry read never ends before its start nor past the end of the buffer |
| `PckFormat.PropertiesAdvance` | PCKFile.py:35-39 | a property read never ends before its start nor past the end of the buffer |
| `PckFormat.IntsAt` | PCKFile.py:87-88 | `readInts(k)` succeeds iff `4k` bytes remain, consumes exactly `4k` bytes, returns `k` values, and fails with the end-of-stream error otherwise |
| `PckFormat.IntsAtValues` | PCKFile.py:87-88 | value `i` of `readInts` is the int32 in bytes `4i .. 4i+4` after the cursor |
| `PckFormat.IntAt` | PCKFile.py:90-91 | `readInt` succeeds iff 4 bytes remain, consumes exactly 4 bytes, and fails with the end-of-stream error at the cursor otherwise |
| `PckFormat.IntAtIsSingleInts` | PCKFile.py:90-91 | `readInt` is `readInts(1)[0]`: the same success, error, value and next position |
| `PckFormat.IntAtValue` | PCKFile.py:90-91 | `readInt` yields the int32 in the four bytes at the cursor and consumes them |
| `PckFormat.StringAt` | PCKFile.py:93-94 | a successful `readString` ends at least 4 bytes after the cursor and inside the buffer; `StringAtLayout` states exactly what it consumes and yields |
| `PckFormat.StringAtLayout` | PCKFile.py:93-94 | `readString` consumes exactly `4 + 2n` bytes, where `n` is its leading count, and yields the `n` code units in them; the reserved field after it is not consumed |
| `PckFormat.MetaEntryAt` | PCKFile.py:46-50 | a successful meta entry ends at or after the cursor and inside the buffer; `MetaEntryAtLayout` states what it carries and consumes |
| `PckFormat.MetaEntryAtLayout` | PCKFile.py:45-50 | a meta entry carries the index and name read at its position and consumes `4 + (4 + 2*len(name)) + 4` bytes |
| `PckFormat.ApplyMeta` | PCKFile.py:49 | the stores `self.meta[index] = name` in order; no contract of its own: `ApplyMetaAppend` and `ApplyMetaLastWins` state it |
| `PckFormat.ApplyMetaAppend` | PCKFile.py:49 | storing one more entry updates the table after all earlier stores, at that entry's index |
| `PckFormat.ApplyMetaLastWins` | PCKFile.py:45-49 | after storing the entries, an index is present iff it was present before or some entry has it; it holds the name of the last entry with that index; an index no entry mentions keeps its old name |
| `PckFormat.HasXmlVersion` | PCKFile.py:43-48 | the `has_xmlversio_tag` flag: some entry read is named `"XMLVERSION"`; no contract of its own: `HasXmlVersionAppend` states how each iteration sets it, `MetaSectionShape` that the version int32 is read iff it holds, and `PckFiles.PCKFile.ReadMetaLoop` that the flag the loop returns on success equals it |
| `PckFormat.HasXmlVersionAppend` | PCKFile.py:43-48 | the loop flag is set once an entry named `"XMLVERSION"` has been read, and stays set |
| `PckFormat.MetaEntryAppend` | PCKFile.py:45-49 | one more meta iteration stores its entry last and sets the flag iff the flag was set or the entry is named `"XMLVERSION"` |
| `PckFormat.MetaSection` | PCKFile.py:42-53 | `readMetaEntries`; no contract of its own: `MetaSectionShape`, `MetaSectionBound` and `PckFiles.PCKFile.ReadMetaEntries` state it |
| `PckFormat.MetaSectionTail` | PCKFile.py:52-53 | what follows the entries ends no earlier than they do, and either right after them or inside the buffer |
| `PckFormat.MetaSectionShape` | PCKFile.py:42-53 | a successful meta section reads `max(count, 0)` entries, stores them in order into the table, and reads exactly one more int32 iff one of them is named `"XMLVERSION"` |
| `PckFormat.MetaSectionBound` | PCKFile.py:42-53 | a successful meta section ends after its count and inside the buffer |
| `PckFormat.FileEntryAtLayout` | PCKFile.py:70-74 | a file entry carries the size, type and name read at its position and consumes `8 + (4 + 2*len(name)) + 4` bytes |
| `PckFormat.FileEntryAt` | PCKFile.py:71-74 | a successful file entry ends at or after the cursor and inside the buffer; `FileEntryAtLayout` states what it carries and consumes |
| `PckFormat.FileEntrySection` | PCKFile.py:68-74 | `readFileEntries`; no contract of its own: `FileEntrySectionShape`, `FileEntrySectionBound` and `PckFiles.PCKFile.ReadFileEntries` state it |
| `PckFormat.FileEntrySectionShape` | PCKFile.py:68-74 | `readFileEntries` appends exactly `max(count, 0)` entries after the ones already held |
| `PckFormat.FileEntrySectionBound` | PCKFile.py:68-74 | a successful file-entry section ends after its count and inside the buffer |
| `PckFormat.EntryName` | PCKFile.py:76-77 | the lookup succeeds iff the index is in the table, returns the stored name, and fails with that index otherwise |
| `PckFormat.PropertyAt` | PCKFile.py:35-39 | a successful property ends at or after the cursor and inside the buffer; `PropertyAtLayout` states its key, value, size and its unknown-index failure |
| `PckFormat.PropertyAtLayout` | PCKFile.py:34-39 | a property's key is the meta name under the index read first and its value is the string after it; an index missing from the table makes the property fail with that index once its fields are read, and that is the only way it fails with an unknown index |
| `PckFormat.RecordAt` | PCKFile.py:32-40 | one data block; no contract of its own: `RecordAtShape`, `RecordAtPayload`, `RecordAtBound` and `PckFiles.PCKFile.ReadRecord` state it |
| `PckFormat.RecordTail` | PCKFile.py:40 | the payload read ends no earlier than the properties, and either right after them or inside the buffer |
| `PckFormat.RecordAtParts` | PCKFile.py:32-40 | a successful data block is its property count, its property loop and its payload read, each successful |
| `PckFormat.RecordTailShape` | PCKFile.py:40 | a successful payload read pairs the entry with the properties and exactly `size` bytes right after them; the size is not negative |
| `PckFormat.RecordAtShape` | PCKFile.py:32-40 | a data block holds the file entry it was read for, the `max(count, 0)` properties read for it in stream order, and a payload of exactly `size` bytes |
| `PckFormat.RecordAtPayload` | PCKFile.py:40 | the payload is the `size` bytes that end where the block ends |
| `PckFormat.RecordAtBound` | PCKFile.py:32-40 | a successful data block ends after its property count and inside the buffer |
| `PckFormat.RecordLoop` | PCKFile.py:31-40 | the loop over `file_entries`; no contract of its own: `RecordLoopStep`, `RecordLoopShape`, `RecordLoopPairs` and `RecordLoopBound` state it |
| `PckFormat.RecordLoopStep` | PCKFile.py:31-40 | one iteration stops with the block's error, or goes on after the block with the block appended |
| `PckFormat.RecordLoopShape` | PCKFile.py:31-40 | the file loop adds one data block per file entry |
| `PckFormat.RecordLoopPairs` | PCKFile.py:31-40 | the block the file loop adds at each index was read for the file entry at the same offset and has that entry's declared payload length |
| `PckFormat.RecordLoopBound` | PCKFile.py:31-40 | the file loop, started inside the buffer, never moves backwards and ends inside the buffer |
| `PckFormat.ParseAt` | PCKFile.py:27-40 | `parse` from a given object state; no contract of its own: `ParseAtParts`, `ParseAtShape`, `ParseAtPairs`, `ParseAtBound` and `PckFiles.PCKFile.Parse` state it |
| `PckFormat.ParseAtParts` | PCKFile.py:27-40 | a successful parse is the archive type, meta section, file-entry section and file loop, each successful, in that order, with the file loop reading under the meta table just read |
| `PckFormat.ParseAtShape` | PCKFile.py:27-31 | after a successful parse `pck_type` is the int32 read first, stored verbatim; the old file entries are followed by the new ones; the old decoded files are followed by one per file entry |
| `PckFormat.ParseAtPairs` | PCKFile.py:31-40 | after a successful parse, every new decoded file pairs with the file entry at the same offset, and its payload has that entry's size |
| `PckFormat.ParseAtBound` | PCKFile.py:27-40 | a successful parse consumes at least the archive type and the two section counts, and ends inside the buffer |
| `PckFormat.Decode` | PCKFile.py:27-40 | `parse` by a fresh object from the start of the buffer; no contract of its own: `DecodeShape`, `PckEncoding.DecodeEncoded`, `PckTrailing.DecodeExtend`, `PckTrailing.DecodeShrink` and `PckTrailing.DecodeTruncated` state it |
| `PckFormat.DecodeShape` | PCKFile.py:27-40 | after a successful parse by a fresh `PCKFile`: `len(data) == len(file_entries)`, and for every `i`, `data[i].info == file_entries[i]` and `len(data[i].data) == file_entries[i].size` |
| `PckFiles.PCKFile.constructor` | PCKFile.py:18-25 | a new object has `pck_type == -1` and an empty meta table, file-entry list and data list |
| `PckFiles.PCKFile.ReadInts` | PCKFile.py:87-88 | returns what `IntsAt` decodes at the cursor and leaves the cursor after it, or fails with its error, leaving the cursor where it was |
| `PckFiles.PCKFile.ReadInt` | PCKFile.py:90-91 | returns what `IntAt` decodes at the cursor and leaves the cursor after it, or fails with its error, leaving the cursor where it was |
| `PckFiles.PCKFile.ReadString` | PCKFile.py:93-94 | returns what `StringAt` decodes at the cursor and leaves the cursor after it, or fails with its error |
| `PckFiles.PCKFile.ReadMetaEntry` | PCKFile.py:46-50 | one meta iteration returns what `MetaEntryAt` decodes at the cursor and leaves the cursor after it, or fails with its error; on success the entry is stored into `meta` |
| `PckFiles.PCKFile.ReadMetaLoop` | PCKFile.py:43-50 | the loop stores each entry into `meta` as it is read, ending with the table `ApplyMeta` describes, and its flag holds iff some entry is named `"XMLVERSION"` |
| `PckFiles.PCKFile.ReadMetaEntries` | PCKFile.py:42-53 | on success `meta` is what `MetaSection` computes from the old table and the cursor is after the section; on failure it fails with the same error |
| `PckFiles.PCKFile.ReadFileEntry` | PCKFile.py:71-74 | one file-entry iteration returns what `FileEntryAt` decodes at the cursor and leaves the cursor after it, or fails with its error; on success the entry is appended to `file_entries` |
| `PckFiles.PCKFile.ReadFileEntryLoop` | PCKFile.py:70-74 | the loop appends to `file_entries` exactly the entries `Repeat` reads |
| `PckFiles.PCKFile.ReadFileEntries` | PCKFile.py:68-74 | on success `file_entries` is what `FileEntrySection` computes from the old list and the cursor is after the section; on failure it fails with the same error |
| `PckFiles.PCKFile.ReadProperty` | PCKFile.py:35-39 | one property iteration returns what `PropertyAt` decodes under the current meta table and leaves the cursor after it, or fails with its error |
| `PckFiles.PCKFile.ReadProperties` | PCKFile.py:33-39 | the property loop returns exactly the properties `Repeat` reads under the current meta table, in stream order, or the error that stopped it |
| `PckFiles.PCKFile.ReadRecord` | PCKFile.py:32-40 | one iteration of the file loop yields the data block `RecordAt` decodes for that file entry, or its error |
| `PckFiles.PCKFile.ReadRecords` | PCKFile.py:31-40 | the file loop appends to `data` exactly the blocks `RecordLoop` reads for the held file entries |
| `PckFiles.PCKFile.Parse` | PCKFile.py:27-40 | on success the object's four fields are exactly what `ParseAt` computes from the old state and the buffer at the cursor, and the cursor is right after the last payload; any failure inside is returned unchanged |
| `PckEncoding.IntAtEncoded` | PCKFile.py:90-91 | `readInt` over the encoding of an int32 gives it back and consumes 4 bytes |
| `PckEncoding.StringAtEncoded` | PCKFile.py:93-94 | `readString` over the encoding of a string gives it back and consumes exactly that encoding |
| `PckEncoding.IntPairEncoded` | PCKFile.py:71 | `readInts(stream, 2)` over two encoded int32 values gives them back |
| `PckEncoding.MetaEntryAtEncoded` | PCKFile.py:46-50 | a meta entry reads back from its encoding and consumes exactly it |
| `PckEncoding.FileEntryAtEncoded` | PCKFile.py:71-74 | a file entry reads back from its encoding and consumes exactly it |
| `PckEncoding.PropertyAtEncoded` | PCKFile.py:35-39 | an encoded property whose index the table holds reads back with its key resolved |
| `PckEncoding.PropertyAtUnknown` | PCKFile.py:38 | an encoded property whose index the table lacks fails with that index |
| `PckEncoding.RepeatEncoded` | PCKFile.py:34 | a loop whose items each read back from their encodings reads the whole concatenation back, in order |
| `PckEncoding.MetaSectionEncoded` | PCKFile.py:42-53 | an encoded meta section reads back as its entries stored in order into the table, consuming the version int32 iff some entry is named `"XMLVERSION"` |
| `PckEncoding.FileEntrySectionEncoded` | PCKFile.py:68-74 | an encoded file-entry section reads back as its entries, appended after the ones held |
| `PckEncoding.RecordAtEncoded` | PCKFile.py:32-40 | an encoded data block reads back as its resolved properties and payload, paired with its file entry |
| `PckEncoding.RecordLoopEncoded` | PCKFile.py:31-40 | the file loop reads every encoded data block back, one per file entry in order |
| `PckEncoding.ParseAtEncoded` | PCKFile.py:27-40 | a fresh parse of a well-formed archive's encoding, wherever it lies in the buffer, yields exactly the state the archive describes and ends at the end of the encoding |
| `PckEncoding.DecodeEncoded` | PCKFile.py:27-40 | the round trip: decoding a buffer that starts with the encoding of a well-formed archive yields the state it describes, whatever bytes follow, and stops at the end of the encoding |
| `PckTrailing.StringAtExtend` | PCKFile.py:93-94 | a string read that did not run out of input has the same outcome when more bytes follow, a negative count included |
| `PckTrailing.PropertyAtExtend` | PCKFile.py:35-38 | a property read that did not run out of input, an unknown-index failure included, has the same outcome when more bytes follow |
| `PckTrailing.RepeatExtend` | PCKFile.py:34 | a loop whose items keep their outcome on a longer buffer keeps its own |
| `PckTrailing.MetaSectionExtend` | PCKFile.py:42-53 | the meta section's outcome, when it did not run out of input, is the same when more bytes follow |
| `PckTrailing.FileEntrySectionExtend` | PCKFile.py:68-74 | the file-entry section's outcome, when it did not run out of input, is the same when more bytes follow |
| `PckTrailing.RecordAtExtend` | PCKFile.py:32-40 | a data block's outcome, when it did not run out of input, is the same when more bytes follow |
| `PckTrailing.RecordLoopExtend` | PCKFile.py:31-40 | the file loop's outcome, when it did not run out of input, is the same when more bytes follow |
| `PckTrailing.ParseAtExtend` | PCKFile.py:27-40 | an outcome of `parse` that is not end-of-stream, success or failure, is the same whatever bytes are appended |
| `PckTrailing.DecodeExtend` | PCKFile.py:27-40 | trailing bytes are ignored: appending bytes to an archive that decodes changes neither what it decodes to nor where decoding stops |
| `PckTrailing.TakeShrink` | InputStream.py:23-26 | a read is the same from any prefix of the buffer that still holds it |
| `PckTrailing.StringAtShrink` | PCKFile.py:93-94 | a successful string read is the same from any prefix of the buffer that holds it |
| `PckTrailing.MetaEntryAtShrink` | PCKFile.py:46-50 | a successful meta entry is the same from any prefix of the buffer that holds it |
| `PckTrailing.FileEntryAtShrink` | PCKFile.py:71-74 | a successful file entry is the same from any prefix of the buffer that holds it |
| `PckTrailing.PropertyAtShrink` | PCKFile.py:35-39 | a successful property is the same from any prefix of the buffer that holds it |
| `PckTrailing.RepeatShrink` | PCKFile.py:34 | a successful loop whose items keep their outcome on a prefix keeps its own on any prefix that holds it |
| `PckTrailing.MetaSectionShrink` | PCKFile.py:42-53 | a successful meta section is the same from any prefix of the buffer that holds it |
| `PckTrailing.FileEntrySectionShrink` | PCKFile.py:68-74 | a successful file-entry section is the same from any prefix of the buffer that holds it |
| `PckTrailing.RecordAtShrink` | PCKFile.py:32-40 | a successful data block is the same from any prefix of the buffer that holds it |
| `PckTrailing.RecordLoopShrink` | PCKFile.py:31-40 | a successful file loop is the same from any prefix of the buffer that holds it |
| `PckTrailing.ParseAtShrink` | PCKFile.py:27-40 | a successful parse is the same from any prefix of the buffer that holds it |
| `PckTrailing.DecodeShrink` | PCKFile.py:27-40 | `parse` looks at no byte past where it stops: a buffer that decodes decodes the same once cut right after that byte, which lies inside the buffer |
| `PckTrailing.DecodeCut` | PCKFile.py:27-40 | a buffer that decodes exactly to its end fails with end-of-stream, and in no other way, once a non-empty suffix is cut off |
| `PckTrailing.DecodeTruncated` | PCKFile.py:27-40 | any proper prefix of a well-formed archive's encoding fails to decode with end-of-stream: it neither decodes nor fails on a negative length or an unknown index |

## Left out

- `parse.py` (command-line handling, file reading, directory creation) is not part of this model.
- `PCKFile.dump` (PCKFile.py:79-85) writes files and creates directories. It is left out; its only logic is the guard that refuses an archive whose type is not 3.
- The `print` of the XML version (PCKFile.py:54) and `__repr__` (PCKFile.py:96-101) are diagnostic output. The model reads the int32 and discards it.
- `writeMetaEntries` and `writeFileEntries` (PCKFile.py:56-66) are unfinished in the source: one returns nothing, and the other writes no counts, length prefixes or reserved bytes. They are not modelled. The encoder in `pck_encoding.dfy` is the model's own, written from the read layout.
- The `fmt` field (PCKFile.py:22) is only ever `">"`. Big-endian is fixed in the model.
- UTF-16 decoding (PCKFile.py:94) is modelled as raw 16-bit code units. The decode error Python raises on a lone surrogate is not modelled. `"XMLVERSION"` is compared code unit by code unit.
- PckFormat.StringAt: a negative string length fails with `NegativeLength`. In Python, `read` with a negative size passes the bounds check, and the slice is then empty or taken from the end, so the cursor can move backwards. The model refuses that case instead of reproducing the slicing.
- PckFormat.RecordTail: a negative file size fails with `NegativeLength`, for the same reason. The same applies to `PckFiles.PCKFile.ReadString` and `PckFiles.PCKFile.ReadRecord`.
- InputStreams.InputStream.Read, InputStreams.InputStream.Increment, InputStreams.InputStream.ReadWithPos and InputStreams.InputStream.GetSubStream take a size that is a natural number, and `ReadWithPos` also a position that is a natural number. In the source a negative position passes the bounds check whenever `pos + size` does not exceed the buffer length, and Python then slices from the end of the buffer (on eight bytes `ABCDEFGH`, position -3 and size 2 give `FG`); that end-relative indexing is not modelled, and nothing in the core calls `readWithPos`. Likewise, in the source a negative size passes the bounds check (`HasEnoughSpace` states this), returns an empty or end-relative slice, and moves the cursor backwards. The model's stream never does that, so its cursor only moves forward; the readers that could pass a negative size fail with `NegativeLength` before reading instead.
- PckFiles.PCKFile.Parse: after a failure, the contract gives only the error. It does not describe the fields the source has already changed by then.
- PckFiles.PCKFile.ReadMetaEntries: the XML version value is read and dropped, not reported.
- The loops of `parse`, `readMetaEntries` and `readFileEntries` are split into per-iteration methods and loop methods (`ReadMetaEntry`, `ReadMetaLoop`, `ReadFileEntry`, `ReadFileEntryLoop`, `ReadProperty`, `ReadProperties`, `ReadRecord`, `ReadRecords`). Their statements are the source's; only the division into methods is the model's.
- The round trip (`PckEncoding.DecodeEncoded`) covers well-formed archives only:
  - every count and string length fits an int32;
  - there is one data block per file entry, with the declared payload size;
  - every property key is in the meta table.
  An archive with a missing key is covered for its one property by `PckEncoding.PropertyAtUnknown`.
- `PCKFileEntry`'s own module is not shown in the source. Its shape `(size, type, name)` comes from its uses in `PCKFile.py`.
