# MSSB-Export-Models extractor core, in Dafny

A model of the extractor that pulls files out of the game archives of
Mario Superstar Baseball and decodes what it finds. The model has no
I/O: every operation takes a byte sequence (`seq<u8>`) and integers and
returns its result, or the Python exception it would raise, as a
`Result`.

What is modelled, module by module:

- **Bits, Fields, Layout, Hex, Sorting, Arrays, Wrappers.** Shared building blocks:
  - Python's shifts and masks on unbounded integers;
  - big-endian fields and `struct` formats (`DataBytesInterpreter.parse_bytes_static`);
  - hexadecimal names;
  - the stable `list.sort`;
  - list comprehensions over fixed-size records;
  - `Result` and `Option`.
- **BitStream, Codec, Compressor, Rolling.** The bit-packed LZ codec of `ArchiveDecompressor`, `ArchiveCompressor` and `RollingDecompressor`.
  - Bits are taken low end first out of 32-bit big-endian words.
  - A token is a one-bit flag followed by an 8-bit literal or by a back-reference: a look-back field and a length field whose value is the length minus 2.
  - Covered: both stop modes, the count-only validity check, the greedy compressor, and the lazy decompressor capped at 4,000,000 bytes with its slice views.
  - The compressor's output is proved to decompress to its input.
  - Every operation on the lazy decompressor returns the state it leaves the object in, also when it raises. The object is mutated as it goes, and the extractor writes its partial output after catching the exception (`main.py:233-242`).
- **Entry, Ranges, Fingerprint, Paths, Discovery.** The compression-table entry (`DataEntry`) and the range set of claimed archive bytes (`MultipleRanges`).
  - Also the fingerprint scans (`FingerPrintSearcher`) and the decision steps of `discover_files`: which candidates are accepted, under which names, in what order, and which ranges they claim.
- **Binary.** The part table and C-string readers.
- **Records, DisplayObject, DisplayState, Anim, Collision.** The fixed-layout records of geometry palettes, display objects, display states, actors, bones, animation banks and collision data.
  - `add_offset` relocates exactly the non-null pointers.
  - The models also cover the bitfield decoders and the collision triangle-group walk.
- **DisplayList.** `parse_indices`: GX draw commands and the triangulation of quads, triangle lists, strips and fans. Also `parse_array_values_color`.
- **TextureMath, TplColor, Tpl.** The texture integer helpers and the IA8, R5G6B5 and RGB5A3 colour words.
  - Also the TPL texture header and its validity test.
  - Also the texel readers for I4, I8, IA8, C4, C8 and CMPR, with their palettes.
  - The C4, C8 and CMPR readers count `width >> 3` tiles per row, as the code does. Twins with `(width + 7) // 8` tiles per row, as the I4 reader counts, carry the corrected addressing.

The repository holds several near-copies of the same code:

| pair of copies | lines cited in the table |
|---|---|
| `tbd.py` and `rolling.py` | each where they differ |
| `helpers/binary.py` and `helpers/to_sort.py` | both where they differ |
| `helper_c3.py` and `structs/*` | `structs/*` |
| `helper_collision.py` and `structs/collision` | `structs/collision` |
| `helper_texture.py` and `structs/texture/*` | `structs/texture/*` |
| `run_extract_Model.py` and `run/extract_model.py` | `run_extract_Model.py` |

Each piece is modelled once.

Three behaviours of the code that the model keeps as written:

- `decompress` raises ValueError only for a look-back greater than the output length (`tbd.py:137-139`). A look-back equal to the output length fails by indexing before the start (`tbd.py:141`). Both are errors in the model, with different kinds.
- The compressor's search is `__largest_sublist_bytesearch` (`tbd.py:277`, called at `tbd.py:382`). It shrinks the needle from the longest candidate down.
- Known raw files are added to the raw list twice: once when the list is seeded (`file_discovery.py:173-174`) and once in the loop at `file_discovery.py:197-200`. The model keeps both.

## Model

| member | source | states |
|---|---|---|
| Bits.Mask | extractor/structs/compression/tbd.py:41 | `x & (2**n - 1)` is below 2^n and leaves a value already below 2^n unchanged |
| Bits.MaskIsAnd | extractor/structs/compression/tbd.py:41 | the low-bits mask used by the reader is the bitwise AND with `2**n - 1` |
| Bits.PlaceIsOr | extractor/structs/compression/tbd.py:180 | OR-ing a value shifted above the bits already in the buffer is an addition |
| Bits.JoinIsOr | extractor/structs/compression/tbd.py:53-57 | `(high << n) \| (word & (0xffffffff >> (32 - n)))` is the low `n` bits of the word below `high` |
| Bits.AndPow2 | extractor/helpers/textures.py:4-9 | `x & 2**k` keeps exactly bit `k` of `x` |
| Bits.OrDisjoint | extractor/structs/compression/tbd.py:193 | OR-ing a value into bits that are still clear is an addition |
| Bits.OrShifted | extractor/structs/texture/tpl_color.py:40-42 | OR-ing a field below bit `n` into a value shifted up by `n` is an addition |
| Bits.BigEndian | extractor/helpers/binary.py:16 | `int.from_bytes(s, 'big')` is below 2^(8·len(s)), and 0 for an empty slice |
| Bits.WordBytes | extractor/structs/compression/tbd.py:210 | `w.to_bytes(4, 'big')` of a 32-bit word is four bytes |
| Bits.BigEndian4 | extractor/structs/compression/tbd.py:21 | a four-byte big-endian word is its bytes weighted by 2^24, 2^16, 2^8 and 1 |
| Bits.BigEndian2 | extractor/structs/common.py:18 | a two-byte big-endian field is its first byte times 256 plus its second |
| Bits.BigEndian1 | extractor/structs/common.py:18 | a one-byte field is its byte |
| Bits.WordBytesRoundTrip | extractor/structs/compression/tbd.py:207-211 | reading back the four bytes written for a word gives the word |
| Arrays.FailsLater | extractor/structs/collision/collision_structs.py:77-80 | a record that fails after a first one that parses makes the whole record array fail with that error |
| Arrays.ParseArray | extractor/structs/collision/collision_structs.py:77-80 | the array of `count` records at `base + i * stride` holds, in order, exactly the record parsed at each position, or fails with the error of the first record that does not parse |
| Arrays.ParseArrayOk | extractor/structs/collision/collision_structs.py:77-80 | the record array parses if and only if every one of its records parses |
| Arrays.ParseArrayIs | extractor/structs/collision/collision_structs.py:77-80 | records that each parse to the matching item of a list make the array parse to exactly that list |
| Binary.Word | extractor/helpers/binary.py:16 | `int.from_bytes(file_bytes[i:i+4], 'big')` of the slot at `i`, 0 for an empty slice; stated by Binary.WordPastEnd and Binary.WordsZeroPast |
| Binary.WordPastEnd | extractor/helpers/binary.py:16 | a four-byte slot starting at or past the end of the buffer reads as 0 (the slice is empty) |
| Binary.WordsZeroPast | extractor/helpers/binary.py:16 | every nonzero slot starts inside the buffer, so the part-table loop ends |
| Binary.PartsFrom | extractor/helpers/binary.py:14-25 | the `while True` loop of `get_parts_of_file` from one slot on; stated by Binary.PartsFromWords, Binary.PartsFromIncreasing, Binary.PartsFromStops and Binary.PartsFromIs |
| Binary.PartsFromWords | extractor/helpers/binary.py:14-25 | the part-table loop collects consecutive slots, each nonzero, and stops within one slot of the end of the buffer |
| Binary.PartsFromIncreasing | extractor/helpers/binary.py:22-25 | each collected part is larger than the one before it |
| Binary.PartsFromStops | extractor/helpers/binary.py:19-23 | the slot after the last part is 0 or not larger than the last part |
| Binary.PartsFromIs | extractor/helpers/binary.py:14-27 | the loop from any slot yields the part table from that slot |
| Binary.PartsOfFile | extractor/helpers/binary.py:11-27 | `get_parts_of_file`; stated by Binary.PartsOfFileIs and Binary.PartTableUnique |
| Binary.PartsOfFileIs | extractor/helpers/binary.py:11-27 | `get_parts_of_file` returns a nonzero, strictly increasing list of the leading big-endian words, ended by a zero or non-increasing word, with at most one part per started slot |
| Binary.Increasing | extractor/helpers/binary.py:22-25 | parts that grow at every step are strictly increasing pairwise |
| Binary.Chain | extractor/helpers/binary.py:22-25 | in a list that grows at every step, an earlier item is smaller than a later one |
| Binary.PartTableUnique | extractor/helpers/to_sort.py:6-22 | the returned list is the only list meeting the part-table description (both directions) |
| Binary.TableIsParts | extractor/helpers/to_sort.py:9-22 | any part table from a slot is what the loop yields from that slot |
| Binary.TableTail | extractor/helpers/to_sort.py:17-20 | a part table without its first part is the part table from the next slot |
| Binary.Chr | extractor/helpers/binary.py:48 | `chr` of one byte; stated by Binary.Chars |
| Binary.Chars | extractor/helpers/binary.py:48 | the characters of a byte string, one `chr` per byte, in order |
| Binary.ScanFrom | extractor/helpers/binary.py:47-53 | the scan either fails with an index error or returns the `chr` of the bytes from the start index on, inside the buffer |
| Binary.CStr | extractor/helpers/binary.py:44-55 | `get_c_str` either fails with an index error or returns the characters of the bytes from `offset` on |
| Binary.ScanFromStops | extractor/helpers/binary.py:47-51 | a returned string holds no NUL byte and ends at a NUL byte or when the length limit is reached |
| Binary.ScanFromFails | extractor/helpers/binary.py:47 | the scan fails only when the buffer ends before any NUL and before the limit |
| Binary.CStrIs | extractor/helpers/to_sort.py:39-50 | `get_c_str` returns the text up to the first NUL, never a NUL character, at most `max_length` characters (at least one), and fails exactly when the buffer ends before a NUL and before the limit |
| Binary.ScanWithinLimit | extractor/helpers/binary.py:50-51 | a limited scan never collects more characters than the limit |
| Binary.CStrWithinLimit | extractor/helpers/binary.py:44-55 | `get_c_str` with a limit returns at most that many characters |
| Fields.U32At | extractor/structs/common.py:11-18 | an `I` field read at a byte offset is below 2^32 |
| Fields.U16At | extractor/structs/common.py:11-18 | an `H` field read at a byte offset is below 2^16 |
| Fields.U8At | extractor/structs/common.py:11-18 | a `B` field read at a byte offset is below 256 |
| Fields.Be32 | extractor/structs/compression/compression_structs.py:263 | a 32-bit value written big-endian takes four bytes |
| Fields.Be16 | extractor/structs/texture/tpl_color.py:8-9 | a 16-bit value written big-endian takes two bytes |
| Fields.Be8 | extractor/structs/common.py:11-18 | an 8-bit field is written as its one byte |
| Fields.Zeros | extractor/structs/common.py:11-18 | `n` pad bytes are `n` zero bytes |
| Fields.Read32 | extractor/structs/common.py:18 | a written `I` field reads back as its value |
| Fields.Read16 | extractor/structs/common.py:18 | a written `H` field reads back as its value |
| Fields.Read8 | extractor/structs/common.py:18 | a written `B` field reads back as its value |
| Fields.Read32At | extractor/structs/common.py:11-18 | an `I` field of an encoded record placed at an offset reads back as its value |
| Fields.Read16At | extractor/structs/common.py:11-18 | an `H` field of an encoded record placed at an offset reads back as its value |
| Fields.Read8At | extractor/structs/common.py:11-18 | a `B` field of an encoded record placed at an offset reads back as its value |
| Fields.SplitSlice | extractor/structs/common.py:13 | two records written one after the other are each found at their own offset |
| Fields.Write32 | extractor/structs/common.py:18 | an `I` field read and written again gives back its four bytes |
| Fields.Write16 | extractor/structs/common.py:18 | an `H` field read and written again gives back its two bytes |
| Fields.Write8 | extractor/structs/common.py:18 | a `B` field read and written again gives back its byte |
| Layout.Size | extractor/structs/common.py:12 | `calcsize`: the bytes of a format, one width per field; stated by Layout.Pack and Layout.ParseBytes |
| Layout.ValuesFitCount | extractor/structs/common.py:18 | values that fit a format are exactly one per non-pad field |
| Layout.ToBigEndian | extractor/structs/compression/compression_structs.py:263 | `x.to_bytes(n, 'big')` of a value that fits takes exactly `n` bytes |
| Layout.HighBytes | extractor/structs/compression/compression_structs.py:263 | without its last byte, an `n`-byte value fits in `n - 1` bytes |
| Layout.ReadWritten | extractor/structs/compression/compression_structs.py:263 | an integer written big-endian and read back is the integer |
| Layout.WrittenRead | extractor/helpers/binary.py:16 | bytes read as a big-endian integer and written back are the bytes |
| Layout.Unpack | extractor/structs/common.py:18 | `struct.unpack` returns one value per non-pad field, each fitting its width |
| Layout.UnpackPad | extractor/structs/common.py:18 | a leading pad byte is skipped and yields no value |
| Layout.UnpackField | extractor/structs/common.py:18 | a leading value field is read big-endian from its own bytes, the rest from the bytes after it |
| Layout.Pack | extractor/structs/compression/compression_structs.py:98 | `struct.pack` writes exactly `calcsize` bytes or fails with a range error |
| Layout.UnpackPacked | extractor/structs/common.py:18 | packing succeeds exactly on values that fit the format, and unpacking packed bytes gives the values back |
| Layout.PackUnpacked | extractor/structs/common.py:18 | unpacking bytes whose pads are zero and packing the values again gives the bytes back |
| Layout.ParseBytes | extractor/structs/common.py:11-18 | `parse_bytes_static` fails with the out-of-bytes error exactly when fewer than `calcsize` bytes are left at the offset (a zero-size format never fails), and otherwise returns one fitting value per non-pad field |
| Layout.ParseWindow | extractor/structs/common.py:13 | a record reads only its own bytes: parsing at an offset equals parsing the slice taken there |
| Layout.ParseSameBytes | extractor/structs/common.py:13 | two buffers with the same bytes at two offsets parse alike there |
| Layout.ParsePacked | extractor/structs/common.py:11-18 | the packed bytes of fitting values parse back to the values |
| Layout.Relocate | extractor/structs/common.py:43-45 | `add_offset` on one pointer keeps a null pointer null and moves any other pointer by exactly the offset |
| Layout.RelocateTwice | extractor/structs/common.py:60-68 | relocating a pointer twice is relocating it once by the sum of the offsets |
| Hex.Digit | extractor/structs/compression/compression_structs.py:62 | the character written for a digit is a lower-case hex digit whose value is the digit |
| Hex.DigitValue | extractor/run/file_discovery.py:160 | a lower-case hex digit has a value below 16 |
| Hex.Digits | extractor/run/file_discovery.py:160 | `format(x, 'x')` is a non-empty string of lower-case hex digits |
| Hex.Format | extractor/structs/compression/compression_structs.py:62 | `f"{x:0{w}x}"` is all hex digits and exactly `w` characters long, or the digit count of `x` when that is larger |
| Hex.ZerosValue | extractor/structs/compression/compression_structs.py:62 | leading zero padding does not change the value read back |
| Hex.ZerosOnly | extractor/structs/compression/compression_structs.py:62 | a string of zeros reads as 0 |
| Hex.DigitsValue | extractor/run/file_discovery.py:160 | reading back the hex digits of `x` gives `x` |
| Hex.FormatValue | extractor/structs/compression/compression_structs.py:62 | reading back a zero-padded hex field gives the value, whatever the width |
| Hex.DigitsWidth | extractor/run/file_discovery.py:271 | a value below 16^n has at most `n` hex digits |
| Hex.FormatWidth | extractor/structs/compression/compression_structs.py:62 | a value below 16^w formats to exactly `w` characters, so `:08x` of a 32-bit location is eight characters |
| Sorting.Insert | extractor/structs/compression/compression_structs.py:200 | inserting into a list adds exactly one element |
| Sorting.SortBy | extractor/run/file_discovery.py:184 | sorting by a key keeps the length |
| Sorting.InsertPermutes | extractor/structs/compression/compression_structs.py:200 | inserting adds exactly the new element to the multiset |
| Sorting.SortByPermutes | extractor/run/file_discovery.py:184 | the sorted list is a permutation of the input |
| Sorting.InsertSorted | extractor/structs/compression/compression_structs.py:230 | inserting into a key-ordered list keeps it key-ordered |
| Sorting.SortBySorted | extractor/run/file_discovery.py:192 | the sorted list is ordered by the key |
| Sorting.SortByOfSorted | extractor/structs/compression/compression_structs.py:230 | sorting a list already in key order leaves it unchanged |
| Sorting.InsertAt | extractor/structs/compression/compression_structs.py:200 | the stable sort puts an element after every earlier element whose key is not larger and before every larger one |
| BitStream.Start | extractor/structs/compression/tbd.py:63-66 | `__reset_buffer` starts at byte 0 with an empty bit buffer, a reachable state with every bit of the buffer still to read |
| BitStream.ReadInt | extractor/structs/compression/tbd.py:17-25 | `__read_int` fails exactly when `byte_index + 3 >= len`, and otherwise returns the big-endian word at the byte index (below 2^32) and advances the index by 4 |
| BitStream.ReadBits | extractor/structs/compression/tbd.py:37-61 | `__read_bits(n)` never fails when the buffer holds `n` bits, fails only on a missing word or a negative shift, fetches at most one word, keeps the buffer invariant, returns a value below 2^n and consumes exactly `n` bits |
| BitStream.AddBits | extractor/structs/compression/tbd.py:176-198 | `add_bits` only appends words, keeps the buffer free of bits above its count, and keeps the writer invariant for fields of at most 32 bits |
| BitStream.Flush | extractor/structs/compression/tbd.py:201-205 | `flush` empties the buffer and appends at most one word, keeping the earlier words |
| BitStream.AddBitsCount | extractor/structs/compression/tbd.py:179-198 | each branch of `add_bits` adds exactly `n` to the number of bits written |
| BitStream.FlushCount | extractor/structs/compression/tbd.py:201-205 | after `flush` the word count is the bits written rounded up to whole 32-bit words |
| BitStream.Concat4 | extractor/structs/compression/tbd.py:207-211 | the byte array of `k` words is `4k` bytes |
| BitStream.ToByteArray | extractor/structs/compression/tbd.py:207-211 | `to_byte_array` succeeds exactly when every word fits in 32 bits, is then four big-endian bytes per word, and otherwise fails with OverflowError |
| BitStream.Concat4Word | extractor/structs/compression/tbd.py:210 | bytes `4k .. 4k+4` of the byte array are word `k` and read back as it |
| BitStream.SyncStart | extractor/structs/compression/tbd.py:63-66 | a fresh reader over the bytes of a word list stands where an empty writer stood |
| BitStream.SyncValid | extractor/structs/compression/tbd.py:37-61 | a reader in step with a writer is a reachable decoder state |
| BitStream.SyncEnd | extractor/structs/compression/tbd.py:201-211 | once the last field is read back, the reader has consumed every byte of the flushed words |
| BitStream.AddBitsPrefix | extractor/structs/compression/tbd.py:176-198 | the final word list of a writer is consistent with every earlier writer state |
| BitStream.FitPrefix | extractor/structs/compression/tbd.py:179-181 | a field that fits the current word keeps the final word list consistent with the earlier state |
| BitStream.EmitPrefix | extractor/structs/compression/tbd.py:182-186 | an emitted word keeps the final word list consistent with the earlier state |
| BitStream.FlushPrefix | extractor/structs/compression/tbd.py:201-205 | the flushed word list is consistent with the writer before the flush |
| BitStream.FitShape | extractor/structs/compression/tbd.py:179-181 | a field that fits below 32 bits is placed above the buffered bits and no word is emitted |
| BitStream.FillShape | extractor/structs/compression/tbd.py:182-186 | a field that fills the word exactly emits it and empties the buffer |
| BitStream.SpillShape | extractor/structs/compression/tbd.py:187-198 | a field that straddles two words puts its high bits in the emitted word and its low bits start the next one |
| BitStream.ShiftShape | extractor/structs/compression/tbd.py:39-45 | with enough buffered bits the value is the low `n` bits of the buffer, which is shifted right by `n` |
| BitStream.RefillShape | extractor/structs/compression/tbd.py:46-59 | on refill the leftover buffered bits become the high part of the value and the rest of the new word stays buffered |
| BitStream.ReadWord | extractor/structs/compression/tbd.py:17-25 | reading a word at byte `4k` of a written word list gives word `k` |
| BitStream.EmittedWord | extractor/structs/compression/tbd.py:183 | a word the writer emitted is the word at that position of the final list |
| BitStream.ReadInSync | extractor/structs/compression/tbd.py:37-61 | reading `n` bits where the writer added an `n`-bit value yields exactly that value and leaves the reader in step with the writer |
| BitStream.FitFromBoundary | extractor/structs/compression/tbd.py:46-59 | a field that started a new word is read back from a fresh word |
| BitStream.FillFromBoundary | extractor/structs/compression/tbd.py:46-59 | a full 32-bit field is read back from a fresh word |
| BitStream.FitSync | extractor/structs/compression/tbd.py:39-45 | a field placed inside a word is read back from the buffered bits |
| BitStream.FillSync | extractor/structs/compression/tbd.py:39-45 | a field that completed a word is read back from the buffered bits |
| BitStream.SpillSync | extractor/structs/compression/tbd.py:187-198 | a field split across two words is read back by joining the buffered bits with the low bits of the next word |
| Codec.HasBits | extractor/structs/compression/tbd.py:27-30 | `__has_bits`: at or past the last byte the reader has bits only while its buffer is nonzero, so an empty buffer has none; stated through Codec.KeepGoing by Codec.DecodeFrom, whose loop ends where no bits remain when no size is expected |
| Codec.KeepGoing | extractor/structs/compression/tbd.py:32-35 | `__should_keep_decompressing`: below the expected size when there is one, else `__has_bits`; stated by Codec.DecodeFrom, whose loop stops exactly where it is false |
| Codec.Stored | extractor/structs/compression/tbd.py:69-70 | widths 0/0 mark stored data; stated by Codec.StoredDecompress and Codec.Decompress |
| Codec.ReadToken | extractor/structs/compression/tbd.py:130-144 | one token consumes at least one bit; a reference has a distance below 2^lb and a copy length of 2 to 2^rb + 1; errors come only from the bit reader |
| Codec.ReadReference | extractor/structs/compression/tbd.py:133-135 | after a 0 flag the distance field is below 2^lb and the length is the field plus 2 |
| Codec.ReadLiteral | extractor/structs/compression/tbd.py:143-144 | after a 1 flag the token is one literal byte |
| Codec.TokenRemains | extractor/structs/compression/rolling.py:28-52 | the reader a failed token read leaves: it has advanced by the fields read before the failing one, equals the token's reader when the read succeeds, and after running out of words it sits where `__read_int` raised |
| Codec.CopyBack | extractor/structs/compression/tbd.py:140-142 | the copy loop appends exactly `count` bytes and keeps the output so far |
| Codec.CopyBackRepeats | extractor/structs/compression/tbd.py:141 | every appended byte repeats the byte `distance + 1` places before it, so a copy longer than its distance repeats its own output |
| Codec.DecodeFrom | extractor/structs/compression/tbd.py:128-146 | the `decompress` loop only extends the output, stops in a state where `__should_keep_decompressing` is false, and with an expected size overshoots it by at most 2^rb |
| Codec.Decompress | extractor/structs/compression/tbd.py:117-146 | `compressed_size` is a multiple of 4, and with an expected size the compressed output is at least that size and at most 2^rb bytes longer (the last copy is not truncated) |
| Codec.CountFrom | extractor/structs/compression/tbd.py:76-89 | the counting loop of `is_valid_decompression`; stated by Codec.CountAgreesWithDecode and its step lemmas |
| Codec.IsValidDecompression | extractor/structs/compression/tbd.py:68-89 | `is_valid_decompression`; stated by Codec.IsValidIffDecompresses and Codec.StoredDecompress |
| Codec.VerdictAgrees | extractor/structs/compression/tbd.py:68-89 | the verdict on a decoding outcome is True for a decoding, False for a bad reference and the reader's error otherwise |
| Codec.CountAgreesWithDecode | extractor/structs/compression/tbd.py:76-89 | the counting loop of `is_valid_decompression` reads the same tokens as the `decompress` loop (lines 128-144) and counts exactly the bytes it appends, so its answer is the verdict on the decoding |
| Codec.FailStep | extractor/structs/compression/tbd.py:78-81 | a token the reader cannot read fails both loops with the same error |
| Codec.BadReferenceStep | extractor/structs/compression/tbd.py:82-84 | a distance at or beyond the output length makes the count False and the decoding fail (raised for distance > length at lines 137-139, an index before the start for distance == length at line 141) |
| Codec.LiteralStep | extractor/structs/compression/tbd.py:86-88 | after a literal both loops go on agreeing |
| Codec.CopyStep | extractor/structs/compression/tbd.py:85 | after a good reference both loops go on agreeing |
| Codec.CountLiteralStep | extractor/structs/compression/tbd.py:86-88 | a literal adds one to the count |
| Codec.DecodeLiteralStep | extractor/structs/compression/tbd.py:143-144 | a literal appends its byte to the output |
| Codec.CountCopyStep | extractor/structs/compression/tbd.py:85 | a good reference adds its length to the count |
| Codec.DecodeCopyStep | extractor/structs/compression/tbd.py:137-142 | a good reference appends its copy to the output |
| Codec.IsValidIffDecompresses | extractor/structs/compression/tbd.py:68-146 | `is_valid_decompression` is True exactly when `decompress` succeeds and False exactly when `decompress` meets a reference before the start of the output |
| Codec.StoredDecompress | extractor/structs/compression/tbd.py:69-70 | with widths 0/0 the data is valid, and `decompress` returns the first `original_size` bytes (lines 118-122), or nothing without a size, fetching no words |
| Compressor.Slice | extractor/structs/compression/tbd.py:287 | a Python slice with a clamped stop is never longer than the sequence |
| Compressor.FindFrom | extractor/structs/compression/tbd.py:299 | the scan of `bytes.find` from a position returns an index or -1 |
| Compressor.FindFromFirst | extractor/structs/compression/tbd.py:299 | the scan returns the first occurrence at or after its start, and -1 exactly when none follows |
| Compressor.Find | extractor/structs/compression/tbd.py:299 | `bytes.find` returns an index or -1 |
| Compressor.FindFirst | extractor/structs/compression/tbd.py:298-299 | `bytes.find` returns the lowest index where the needle occurs, and -1 exactly when it occurs nowhere |
| Compressor.ShrinkSearch | extractor/structs/compression/tbd.py:297-307 | a hit of the shrinking loop is at least `min_sublist_size` and at most the sublist long, and lies at or after the window start |
| Compressor.ShrinkSearchHit | extractor/structs/compression/tbd.py:299-303 | the loop stops at a prefix whose first occurrence starts before the look-ahead, and reports that first occurrence |
| Compressor.ShrinkSearchNoLonger | extractor/structs/compression/tbd.py:297-305 | no prefix longer than the one reported (and none of at least the minimum size when nothing is reported) occurs before the look-ahead |
| Compressor.FoundFirst | extractor/structs/compression/tbd.py:299 | a found needle occurs at the reported index and nowhere before it |
| Compressor.NotFoundBefore | extractor/structs/compression/tbd.py:301 | when `find` reports nothing before the usable limit, no occurrence starts there |
| Compressor.ByteSearch | extractor/structs/compression/tbd.py:277-307 | a match of `__largest_sublist_bytesearch` is at least `min_sublist_size` long |
| Compressor.ByteSearchLongest | extractor/structs/compression/tbd.py:277-307 | after clamping the bounds, the search returns the longest prefix of the bytes ahead that starts inside the sliding window and ends within the look-ahead, at its earliest start, or nothing when no prefix of the minimum size occurs |
| Compressor.SearchInData | extractor/structs/compression/tbd.py:295-303 | the loop over the window-and-look-ahead slice finds the longest earliest match in terms of positions in the whole data |
| Compressor.HitInData | extractor/structs/compression/tbd.py:303 | a reported match starts inside the window, matches the data there, and starts at its earliest such position |
| Compressor.NoLongerInData | extractor/structs/compression/tbd.py:297-305 | no longer prefix than the reported one occurs at any window position |
| Compressor.HayMatch | extractor/structs/compression/tbd.py:295 | a match in the slice at `p - start` is a match in the data at `p` ending by the clamped stop |
| Compressor.SliceOfSlice | extractor/structs/compression/tbd.py:295 | a slice of a slice is the slice of the data at the summed offsets |
| Compressor.LongestMatch | extractor/structs/compression/tbd.py:382-390 | the search of `compress` returns either nothing or a copy 2 to 2^rb + 1 bytes long that starts inside the 2^lb bytes before the input position |
| Compressor.LongestMatchGreedy | extractor/structs/compression/tbd.py:382-390 | that search returns the longest earlier copy of the input ahead within the window, at its earliest start, and nothing only when no copy of two bytes exists |
| Compressor.GreedyFromLongest | extractor/structs/compression/tbd.py:376-390 | the longest-match property of the byte search, read with the arguments `compress` passes, is greediness at the input position |
| Compressor.WriteOriginalData | extractor/structs/compression/tbd.py:158-163 | `write_original_data` keeps the writer invariant and only appends words |
| Compressor.WriteRepetition | extractor/structs/compression/tbd.py:165-174 | `write_repetition` with fields that fit their widths keeps the writer invariant and only appends words |
| Compressor.LiteralPrefix | extractor/structs/compression/tbd.py:158-163 | a literal written after a state keeps the final word list consistent with that state |
| Compressor.RepetitionPrefix | extractor/structs/compression/tbd.py:165-174 | a repetition written after a state keeps the final word list consistent with that state |
| Compressor.LiteralReadsBack | extractor/structs/compression/tbd.py:158-163 | a literal written where the reader stands is read back (tbd.py:143-144) as that literal |
| Compressor.RepetitionReadsBack | extractor/structs/compression/tbd.py:165-174 | a repetition written where the reader stands is read back (tbd.py:130-135) as a reference with the same lookback and a length two more than the repetition field |
| Compressor.ReferenceReadsBack | extractor/structs/compression/tbd.py:173-174 | the two fields of a repetition are read back as the reference's distance and length |
| Compressor.Step | extractor/structs/compression/tbd.py:392-403 | one round of the `compress` loop advances the input position, stays within the data, only appends words and keeps the writer invariant |
| Compressor.CompressFrom | extractor/structs/compression/tbd.py:380-403 | the `compress` loop only appends words and keeps the writer invariant for widths up to 32 |
| Compressor.Compress | extractor/structs/compression/tbd.py:373-406 | `compress` with widths up to 32 never raises, and its output is a whole number of 4-byte words |
| Compressor.Finish | extractor/structs/compression/tbd.py:405-406 | flushing and converting a valid writer succeeds with four bytes per flushed word |
| Compressor.CopyBackMatch | extractor/structs/compression/tbd.py:140-142 | copying bytes from `distance + 1` back reproduces the input when the input ahead repeats the bytes that far back |
| Compressor.CopyAtMatch | extractor/structs/compression/tbd.py:394-400 | a copy found by the search, encoded with lookback `index - offset - 1`, is resolved by the decoder to the input itself |
| Compressor.CompressPrefix | extractor/structs/compression/tbd.py:380-405 | every state of the `compress` loop is consistent with the final word list |
| Compressor.StepPrefix | extractor/structs/compression/tbd.py:392-403 | one round keeps the final word list consistent with the state before it |
| Compressor.DecodeCompressed | extractor/structs/compression/tbd.py:128-146 | a reader standing where the writer stood after the first `i` input bytes decodes the rest of the input, asked for exactly its size, and ends at the end of the words |
| Compressor.StepReadsBack | extractor/structs/compression/tbd.py:392-403 | the token one round wrote is the next token the decoder reads, after which the reader stands where the writer does |
| Compressor.EmittedReproduces | extractor/structs/compression/tbd.py:394-403 | decoding the token a round wrote appends exactly the input bytes that round consumed |
| Compressor.DecodeApply | extractor/structs/compression/tbd.py:128-144 | one token read by the decoder's loop continues the loop with the output that token produces |
| Compressor.CompressRoundTrip | extractor/structs/compression/tbd.py:373-406 | `ArchiveDecompressor(compress(d), lb, rb, len(d)).decompress()` (tbd.py:117-146) gives back `d` exactly, with `compressed_size` equal to the compressed length, for widths up to 32 other than 0/0 |
| Compressor.CompressedIsValid | extractor/structs/compression/tbd.py:68-89 | what `compress` produces passes `is_valid_decompression` |
| Compressor.StepBits | extractor/structs/compression/tbd.py:392-403 | one round writes 9 bits for a literal or `1 + lb + rb` bits for a repetition |
| Compressor.CompressBits | extractor/structs/compression/tbd.py:380-403 | the loop writes exactly the sum of its tokens' bits |
| Compressor.CompressSize | extractor/structs/compression/tbd.py:405-406 | the output holds every written bit with less than one word of zero padding |
| Compressor.FinishSize | extractor/structs/compression/tbd.py:201-211 | the flushed output holds every written bit with less than one word of padding |
| Compressor.PaddedSize | extractor/structs/compression/tbd.py:201-211 | that size is `4 * ceil(bits / 32)` bytes |
| Compressor.LiteralBits | extractor/structs/compression/tbd.py:401-403 | with no usable copy anywhere, every byte costs nine bits |
| Compressor.AllLiteralSize | extractor/structs/compression/tbd.py:373-406 | an input encoded entirely as literals takes `4 * ceil(9n / 32)` bytes |
| Rolling.New | extractor/structs/compression/rolling.py:8-13 | a fresh rolling decompressor holds the buffer, a reset reader and no output |
| Rolling.Decompress | extractor/structs/compression/rolling.py:59-78 | `decompress(size)` only extends the output, succeeds exactly when it ends holding `size` or 4,000,000 bytes, does nothing when that already holds, and fails only with the reader's errors or a reference before the start; a failed call still returns the state it leaves (the output of the completed tokens, and a reader that cannot fetch another word after running out) |
| Rolling.FailureKeepsDecoded | extractor/structs/compression/rolling.py:59-78 | the output a failed `decompress` leaves in the object is exactly what a successful `decompress` to that length produces |
| Rolling.FailureOutputMatchesArchive | extractor/main.py:233-242 | the partial output the extractor writes after catching the exception is what `ArchiveDecompressor.decompress` produces when it expects that many bytes |
| Rolling.DecompressIsArchiveLoop | extractor/structs/compression/rolling.py:59-78 | the rolling loop is the archive decoder's loop (tbd.py:128-146) with the expected size `min(size, MAX_SIZE)`, continued from the saved reader and output |
| Rolling.RollingMatchesArchive | extractor/structs/compression/tbd.py:462-481 | from a fresh object and for sizes up to `MAX_SIZE`, the rolling output is exactly `ArchiveDecompressor.decompress` for that size (both succeed or both fail), its reader has fetched `compressed_size` bytes, and it overshoots the size by at most 2^rb |
| Rolling.DecompressResumes | extractor/structs/compression/rolling.py:59-78 | decompressing to `a` and then to `b` is decompressing once to `max(a, b)`: asking in smaller steps never changes the final state or the error |
| Rolling.PySlice | extractor/structs/compression/rolling.py:139 | Python's `s[start:stop:step]` with a positive step; stated by Rolling.PySliceIndex, Rolling.PySliceOfSlice and Rolling.PySliceClamp |
| Rolling.PySliceIndex | extractor/structs/compression/rolling.py:139 | element `i` of `s[start:stop:step]` is `s[start + i*step]`, and exists exactly when that position is below the stop and the length |
| Rolling.PySliceOfSlice | extractor/structs/compression/rolling.py:91 | `s[a:e:v][b:c:t]` is `s[a + b*v : min(e, a + c*v) : t*v]` |
| Rolling.PySliceClamp | extractor/structs/compression/rolling.py:139 | clamping a slice's stop to the length changes nothing |
| Rolling.PySlicePrefix | extractor/structs/compression/rolling.py:139 | a slice that ends within the output is the same slice of any longer output |
| Rolling.LengthIsMaxWord | extractor/structs/compression/rolling.py:25-26 | `len()` of the decompressor is 2^32 - 1 |
| Rolling.At | extractor/structs/compression/rolling.py:122-126 | `d[key]` fails the assert for a negative key and leaves the object alone; otherwise it leaves the object as `decompress(key + 1)` does, whether that raises or not, returns byte `key` of the extended output, and below `MAX_SIZE` succeeds exactly when `decompress(key + 1)` does |
| Rolling.AtMatchesArchive | extractor/structs/compression/rolling.py:122-126 | from a fresh object, `d[k]` is byte `k` of what the archive decoder (tbd.py:117-146) produces expecting `k + 1` bytes, and fails exactly when it fails |
| Rolling.Allowed | extractor/structs/compression/rolling.py:129-131 | the three asserts on a slice key, also at rolling.py:94-96; stated by Rolling.Slice and Rolling.ViewSlice |
| Rolling.Slice | extractor/structs/compression/rolling.py:128-142 | a slice key failing the asserts is an assertion error that leaves the object alone; with a stop, the object is left as `decompress(max(start, stop))` leaves it, raising or not, and bytes are returned exactly when that succeeds; without one a lazy view is returned and nothing is decompressed |
| Rolling.SliceIsStable | extractor/structs/compression/rolling.py:136-139 | the bytes a bounded slice returns are that slice of every longer decompression |
| Rolling.ViewAt | extractor/structs/compression/rolling.py:87-91 | integer indexing of a view always fails and leaves the object alone: an assertion error exactly for a negative key, otherwise the `max` of a start and a `None` stop raises TypeError |
| Rolling.ReadSpan | extractor/structs/compression/rolling.py:106-110 | reading a span leaves the object as `decompress(max(start, end))` leaves it, raising or not, and returns the stepped slice of the extended output exactly when that succeeds |
| Rolling.SpanOf | extractor/structs/compression/rolling.py:104-110 | the span the bounded `view[b:c:t]` should read; stated by Rolling.SpanReach, Rolling.SpanReadsView and Rolling.ViewSliceComposes |
| Rolling.TailOf | extractor/structs/compression/rolling.py:112-114 | the view the open `view[b::t]` should build; stated by Rolling.TailComposes |
| Rolling.ViewSlice | extractor/structs/compression/rolling.py:93-114 | the intended `view[start:stop:step]`: the asserts as written; a bounded slice leaves the object as decompressing up to view element `max(start, stop)` leaves it, raising or not, and returns bytes exactly when that succeeds; an open slice returns a lazy view and decompresses nothing |
| Rolling.SpanReach | extractor/structs/compression/rolling.py:106-108 | the intended span of `view[b:c:t]` ends at output position `start + max(b, c) * step` |
| Rolling.ViewSliceComposes | extractor/structs/compression/rolling.py:104-110 | the intended bounded slice of a view returns exactly that slice of the view's bytes |
| Rolling.SpanReadsView | extractor/structs/compression/rolling.py:106-110 | the span `start + b*step` to `start + c*step` by `t*step` reads exactly `b:c:t` of the view's bytes |
| Rolling.TailComposes | extractor/structs/compression/rolling.py:112-114 | the intended open slice `view[b::t]` stands for `b::t` of the view's bytes over any output |
| Rolling.SpanAsWritten | extractor/structs/compression/rolling.py:106-110 | the span the source computes for `view[b:c:t]`; stated by Rolling.SameSpan and Rolling.AsWrittenAgreesWhenAligned |
| Rolling.TailAsWritten | extractor/structs/compression/rolling.py:114 | the view the source builds for `view[b::t]`; stated by Rolling.SameTail and Rolling.AsWrittenAgreesWhenAligned |
| Rolling.ViewSliceAsWritten | extractor/structs/compression/rolling.py:93-116 | the source's `RollingDecompressorSlice.__getitem__` for slice keys: same asserts; a bounded slice leaves the object as `decompress(max(total_start, total_end))` leaves it, raising or not, and returns bytes exactly when that succeeds; an open slice returns a lazy view and decompresses nothing |
| Rolling.AsWrittenAgreesWhenAligned | extractor/structs/compression/rolling.py:106-114 | the source's arithmetic equals the intended one for a slice from element 0, for a bounded slice of a step-1 view, and for an open slice whose step equals the view's |
| Rolling.SameSpan | extractor/structs/compression/rolling.py:106-107 | the source's span equals the intended span for a step-1 view or a slice from element 0 |
| Rolling.SameTail | extractor/structs/compression/rolling.py:114 | the source's open view equals the intended one when the slice step equals the view step or the slice starts at 0 |
| Rolling.Materialised | extractor/structs/compression/rolling.py:59-78 | a decompressor whose output is already `[0, 1, 2, 3]` is a valid state |
| Rolling.BoundedViewSliceMisreads | extractor/structs/compression/rolling.py:106-110 | over the output `[0, 1, 2, 3]`, `d[::2][1:2]` returns `[1]` as written, where the view holds `[0, 2]` and the intended answer is `[2]` |
| Rolling.OpenViewSliceMisreads | extractor/structs/compression/rolling.py:114 | over the output `[0, 1, 2, 3]`, `d[::2][1:]` as written is the view of `[1, 3]`, where the intended view is `[2]` |
| Entry.OutputName | extractor/structs/compression/compression_structs.py:62-67 | the default `output_name`; stated by Entry.OutputNameFields |
| Entry.OutputNameFields | extractor/structs/compression/compression_structs.py:62-67 | the default output name of a fitting entry is the file name, a space, the two widths as two hex digits each, a space, the disc location as eight hex digits and `.dat`, and each field reads back as its value |
| Entry.EntrySizeIs | extractor/structs/compression/compression_structs.py:34 | `">xxBBIII"` is 16 bytes and unpacks to five values |
| Entry.Decode | extractor/structs/compression/compression_structs.py:48-64 | `DataEntry(b, offset, file)` fails with the out-of-bytes error exactly when fewer than 16 bytes are left, and otherwise every field fits its width, the file is kept and the output name is the default one |
| Entry.DecodeSameBytes | extractor/structs/compression/compression_structs.py:56 | an entry is decoded from its own sixteen bytes only |
| Entry.UnpackHeader | extractor/structs/compression/compression_structs.py:34 | the first two values of an entry are its bytes 2 and 3 |
| Entry.UnpackWidths | extractor/structs/compression/compression_structs.py:34 | after the two pads, the two `B` fields are the next two bytes |
| Entry.DecodeWidths | extractor/structs/compression/compression_structs.py:51-52 | the repetition width is byte 2 of the record and the lookback width byte 3 |
| Entry.ValuesFitEntry | extractor/structs/compression/compression_structs.py:34 | five values fit the format exactly when the first two are below 256 and the other three below 2^32 |
| Entry.DecodePacked | extractor/structs/compression/compression_structs.py:48-64 | decoding packed values gives the entry made of them: the flag is the packed word `>> 28` and the size its low 28 bits |
| Entry.FooterSize | extractor/structs/compression/compression_structs.py:36-46 | the footer is below 0x800 and brings the end of the compressed data to a 0x800 boundary |
| Entry.FooterIsLeast | extractor/structs/compression/compression_structs.py:36-46 | no shorter padding reaches a sector boundary |
| Entry.ToRange | extractor/structs/compression/compression_structs.py:114-115 | `to_range` starts at the disc location, ends on a 0x800 boundary, and is at least the compressed size and less than one sector longer |
| Entry.PackedValues | extractor/structs/compression/compression_structs.py:98-105 | `from_dict` passes five values to `pack` |
| Entry.FromDict | extractor/structs/compression/compression_structs.py:96-112 | `from_dict` fails only with `struct.error`, keeps the input file, yields a fitting entry, and uses the stored output name when one is given and the default name otherwise |
| Entry.FromDictFitting | extractor/structs/compression/compression_structs.py:96-112 | with fitting values, `from_dict` builds the entry whose size and flag are the low 28 bits and the rest of `size \| (flag << 28)` |
| Entry.FromDictFails | extractor/structs/compression/compression_structs.py:98-105 | `from_dict` fails exactly on a dictionary whose values do not fit `">xxBBIII"` |
| Entry.SplitWord | extractor/structs/compression/compression_structs.py:58-60 | `size \| (flag << 28)` with a 28-bit size splits back into the flag and the size |
| Entry.ToDict | extractor/structs/compression/compression_structs.py:83-94 | `to_dict`; stated by Entry.FromToDict and Entry.ToFromDict |
| Entry.FromToDict | extractor/structs/compression/compression_structs.py:83-112 | `from_dict(to_dict(e)) == e` for every entry whose fields fit |
| Entry.ToFromDict | extractor/structs/compression/compression_structs.py:83-112 | `to_dict(from_dict(d))` gives back a fitting dictionary with an output name, except that the footer size is recomputed |
| Entry.HashKey | extractor/structs/compression/compression_structs.py:117-118 | the tuple `__hash__` hashes; stated by Entry.EqualIsSameHash |
| Entry.SameBesidesFile | extractor/structs/compression/compression_structs.py:120-124 | `equals_besides_filename`: every numeric field, footer included; stated by Entry.EqualIsSameHash and Discovery.DropMatchingIs |
| Entry.Equal | extractor/structs/compression/compression_structs.py:126-127 | `__eq__`: `equals_besides_filename` and the same file; stated by Entry.EqualIsSameHash |
| Entry.Location | extractor/structs/compression/compression_structs.py:129-132 | the key of `__lt__` and of the sorts by `disk_location`; stated by Discovery.DropRelsSorted and Discovery.OrderedIs |
| Entry.EqualIsSameHash | extractor/structs/compression/compression_structs.py:117-127 | `__eq__` holds exactly when the `__hash__` tuples are equal, so sets of entries deduplicate by `__eq__` |
| Ranges.Overlap | extractor/structs/compression/compression_structs.py:157-161 | `__overlap`; stated by Ranges.OverlapMeaning and Ranges.EmptyAtEndIsApart |
| Ranges.OverlapOrTouch | extractor/structs/compression/compression_structs.py:163-168 | `__overlap_or_touch`; stated by Ranges.OverlapMeaning and Ranges.Combine |
| Ranges.OverlapMeaning | extractor/structs/compression/compression_structs.py:157-168 | for non-empty ranges the endpoint test is closed-interval intersection (abutting ranges overlap), and the touch test adds nothing to it |
| Ranges.EmptyAtEndIsApart | extractor/structs/compression/compression_structs.py:157-161 | an empty range at the very end of another does not overlap it, while one strictly inside does |
| Ranges.Combine | extractor/structs/compression/compression_structs.py:170-175 | `__combine_range` gives a range exactly when the two overlap or touch |
| Ranges.CombineIsUnion | extractor/structs/compression/compression_structs.py:170-175 | combining two non-empty touching ranges gives `[min start, max stop)`, which holds exactly the points of either |
| Ranges.DoesOverlap | extractor/structs/compression/compression_structs.py:177-178 | `does_overlap` is true exactly when some stored range passes the endpoint test against `r` |
| Ranges.Separated | extractor/structs/compression/compression_structs.py:200 | in a merged, sorted list every range ends before every later one starts |
| Ranges.CanonicalSorted | extractor/structs/compression/compression_structs.py:200 | a merged list is sorted by start |
| Ranges.Touching | extractor/structs/compression/compression_structs.py:182 | the list comprehension yields increasing indices of stored ranges |
| Ranges.CombineAll | extractor/structs/compression/compression_structs.py:189-191 | the combining loop fails only by tripping the assert |
| Ranges.Iota | extractor/structs/compression/compression_structs.py:195-196 | the consecutive indices from `a` below `b` |
| Ranges.FirstReaching | extractor/structs/compression/compression_structs.py:182 | the first stored range whose stop reaches a value, all earlier ones ending before it |
| Ranges.FirstPast | extractor/structs/compression/compression_structs.py:182 | the first stored range that starts after a value, all earlier ones starting at or before it |
| Ranges.Straddle | extractor/structs/compression/compression_structs.py:182-187 | a non-empty range falls into a sorted merged list as a block of touching ranges with the others before or after it |
| Ranges.TouchingIsBlock | extractor/structs/compression/compression_structs.py:182-187 | the touching indices are exactly one consecutive block, as the source's comment expects |
| Ranges.CombineBlock | extractor/structs/compression/compression_structs.py:188-191 | combining the block never trips the assert and gives the merged range |
| Ranges.Spliced | extractor/structs/compression/compression_structs.py:182-198 | the list `add_range` builds before its sort; stated by Ranges.AddRangeAppends and Ranges.SplicedBlock |
| Ranges.AddRange | extractor/structs/compression/compression_structs.py:180-200 | `add_range`; stated by Ranges.AddRangeKeepsCanonical and Ranges.AddRangeSplices |
| Ranges.AddRangeKeepsCanonical | extractor/structs/compression/compression_structs.py:180-200 | `add_range` of a non-empty range keeps the list sorted, non-empty and free of overlapping or touching ranges, and the points it covers afterwards are the old points plus those of `r` |
| Ranges.AddRangeSplices | extractor/structs/compression/compression_structs.py:180-200 | on a merged list, `add_range` replaces the block of touching ranges by the merged range in place and leaves every other range untouched |
| Ranges.SortAppend | extractor/structs/compression/compression_structs.py:198-200 | sorting a sorted list with one range appended inserts that range at its place |
| Ranges.AddRangeAppends | extractor/structs/compression/compression_structs.py:184-198 | before the sort, the ranges outside the block are kept in order and the merged range is appended |
| Ranges.SplicedBlock | extractor/structs/compression/compression_structs.py:193-198 | popping `len(indices)` ranges at the smallest touching index removes exactly the block |
| Ranges.KeptSorted | extractor/structs/compression/compression_structs.py:195-196 | dropping a block from a sorted merged list leaves it sorted |
| Ranges.PlaceMerged | extractor/structs/compression/compression_structs.py:198-200 | the merged range is non-empty, sorts right after the ranges before the block, and is apart from its neighbours |
| Ranges.SpliceCanonical | extractor/structs/compression/compression_structs.py:198-200 | replacing a block by a non-empty range that fits the gap keeps the list merged and sorted |
| Ranges.MergedCovers | extractor/structs/compression/compression_structs.py:188-191 | the merged range holds exactly the points of `r` and of the block |
| Ranges.SpliceCovers | extractor/structs/compression/compression_structs.py:193-198 | replacing the block by the merged range covers exactly the old points and those of `r` |
| Ranges.SortCovers | extractor/structs/compression/compression_structs.py:200 | sorting by start keeps the covered points |
| Ranges.CutAsWritten | extractor/structs/compression/compression_structs.py:211-226 | the loop body of `remove_range` as written, four branches and no `else`; stated by Ranges.CutIsDifference and Ranges.CutEachCovers |
| Ranges.Cut | extractor/structs/compression/compression_structs.py:211-226 | the loop body with an `else` that keeps an untouched range; stated by Ranges.CutIsDifference |
| Ranges.CutIsDifference | extractor/structs/compression/compression_structs.py:211-226 | a stored range that takes none of the four branches shares no point with `r`, and the pieces of the corrected body are exactly the points of the range outside `r` |
| Ranges.CoversOne | extractor/structs/compression/compression_structs.py:242 | a one-range list covers exactly the points of that range |
| Ranges.CutEachCovers | extractor/structs/compression/compression_structs.py:211-228 | the corrected loop covers exactly the old points outside `r`; the loop as written covers no more than that |
| Ranges.CoversAppend | extractor/structs/compression/compression_structs.py:218-226 | two lists together cover the points of either |
| Ranges.CoversCons | extractor/structs/compression/compression_structs.py:211 | a list covers a point exactly when its first range or the rest does |
| Ranges.RemoveRangeAsWritten | extractor/structs/compression/compression_structs.py:208-230 | `remove_range` as written; stated by Ranges.RemoveRangeAsWrittenIsSound and Ranges.RemoveRangeDropsApart |
| Ranges.RemoveRange | extractor/structs/compression/compression_structs.py:208-230 | `remove_range` with the keep branch; stated by Ranges.RemoveRangeIsDifference |
| Ranges.RemoveRangeIsDifference | extractor/structs/compression/compression_structs.py:208-230 | `remove_range` with a keep branch for untouched ranges removes exactly the points of `r` |
| Ranges.RemoveRangeAsWrittenIsSound | extractor/structs/compression/compression_structs.py:208-230 | as written, `remove_range` never adds a point and removes every point of `r`, but may remove more |
| Ranges.RemoveRangeDropsApart | extractor/structs/compression/compression_structs.py:211-226 | removing `[20, 30)` from `[[0, 10)]` as written leaves nothing, where `[0, 10)` should stay |
| Ranges.Search | extractor/structs/compression/compression_structs.py:236-255 | the binary search of `__contains__`, with or without the exit at the last index; stated by Ranges.SearchSound and Ranges.SearchComplete |
| Ranges.ContainsAsWritten | extractor/structs/compression/compression_structs.py:232-255 | `value in ranges` as written; stated by Ranges.ContainsAsWrittenIsSound and Ranges.ContainsMissesFirstOfTwo |
| Ranges.Contains | extractor/structs/compression/compression_structs.py:232-255 | `value in ranges` without the exit at the last index; stated by Ranges.ContainsIsCovers |
| Ranges.SearchSound | extractor/structs/compression/compression_structs.py:239-255 | the binary search answers True only for a covered value |
| Ranges.SearchComplete | extractor/structs/compression/compression_structs.py:239-255 | on a merged list the search finds every covered value, unless it takes the exit at the last index on a two-range list |
| Ranges.ContainsIsCovers | extractor/structs/compression/compression_structs.py:232-255 | membership without the last-index exit is exact on merged lists |
| Ranges.ContainsAsWrittenIsSound | extractor/structs/compression/compression_structs.py:232-255 | `value in ranges` as written is never wrongly True, and is exact on merged lists of any length but 2 |
| Ranges.ContainsMissesFirstOfTwo | extractor/structs/compression/compression_structs.py:245 | with the two ranges `[0, 10)` and `[20, 30)`, `5 in ranges` is False as written because only the second range is searched |
| Fingerprint.FindSlice | extractor/structs/compression/compression_structs.py:275-276 | `d.find(m)` on `d = data[start:]` is the first match in `data` at or after `start`, less `start`, or -1 |
| Fingerprint.FindSliceFrom | extractor/structs/compression/compression_structs.py:275-276 | the same holds for the scan from any position of the slice |
| Fingerprint.DecodeSlice | extractor/structs/compression/compression_structs.py:270 | `DataEntry(d, ind)` on `d = data[start:]` is the entry at `start + ind` of the data |
| Fingerprint.SliceOfSlice | extractor/structs/compression/compression_structs.py:275 | a window of the re-sliced buffer is the window of the data at the summed offset |
| Fingerprint.Hit | extractor/structs/compression/compression_structs.py:268 | a hit of the search is a match at or after the position searched from |
| Fingerprint.HitBefore | extractor/structs/compression/compression_structs.py:276 | a match at `q` means the search from before `q` hits at or before `q` |
| Fingerprint.MatchBytes | extractor/structs/compression/compression_structs.py:268 | the bytes at a match are the needle's bytes |
| Fingerprint.CompressionMarker | extractor/structs/compression/compression_structs.py:263 | the marker `((repetitions << 8) \| lookback).to_bytes(4, 'big')` is four bytes or an OverflowError |
| Fingerprint.MarkerBytes | extractor/structs/compression/compression_structs.py:263 | for byte-sized widths the marker is `00 00 rb lb` |
| Fingerprint.MarkerWord | extractor/structs/compression/compression_structs.py:263 | `(rb << 8) \| lb` is `lb + 256·rb` for byte-sized widths |
| Fingerprint.MarkerWordBytes | extractor/structs/compression/compression_structs.py:263 | the four bytes of `lb + 256·rb` are `00 00 rb lb` |
| Fingerprint.Aligned | extractor/structs/compression/compression_structs.py:272 | the location test of both scans, a nonzero multiple of 0x800; stated by Fingerprint.SearchCompressionFinds and Fingerprint.SearchUncompressed |
| Fingerprint.Hits | extractor/structs/compression/compression_structs.py:268-276 | the loop of `search_compression` visits, in increasing order, marker matches that each have a whole entry after them, or fails with the out-of-bytes error |
| Fingerprint.DecodedIs | extractor/structs/compression/compression_structs.py:270-273 | an entry is kept exactly when it decodes at one of the visited positions and passes the scan's test |
| Fingerprint.DecodedAt | extractor/structs/compression/compression_structs.py:270-273 | every kept entry was decoded at some visited position and passes the test |
| Fingerprint.WidthsAt | extractor/structs/compression/compression_structs.py:263-270 | the entry decoded at a marker carries the marker's widths |
| Fingerprint.SearchCompressionAsWritten | extractor/structs/compression/compression_structs.py:262-278 | `search_compression` as written fails only with OverflowError or the out-of-bytes error |
| Fingerprint.SearchCompression | extractor/structs/compression/compression_structs.py:262-278 | the corrected search (loop condition `ind >= 0`) fails only with OverflowError or the out-of-bytes error |
| Fingerprint.SearchCompressionFinds | extractor/structs/compression/compression_structs.py:262-278 | every entry found carries the widths searched for, a non-zero location that is a multiple of 0x800, the file name, and fields in range |
| Fingerprint.MarkersApart | extractor/structs/compression/compression_structs.py:275 | with both widths non-zero two markers cannot overlap, so skipping past a marker loses no later one |
| Fingerprint.HitsComplete | extractor/structs/compression/compression_structs.py:268-276 | the corrected loop visits every marker with a whole entry after it |
| Fingerprint.SearchCompressionIs | extractor/structs/compression/compression_structs.py:262-278 | for non-zero byte-sized widths the corrected search keeps exactly the aligned entries decoded at the markers |
| Fingerprint.HitsAsWrittenPrefix | extractor/structs/compression/compression_structs.py:269 | where both succeed, the loop as written visits a prefix of what the corrected loop visits |
| Fingerprint.DecodedMonotone | extractor/structs/compression/compression_structs.py:273 | decoding more positions keeps everything found before |
| Fingerprint.SearchCompressionAsWrittenWithin | extractor/structs/compression/compression_structs.py:262-278 | where both succeed, the search as written finds a subset of what the corrected search finds |
| Fingerprint.HitsMissStart | extractor/structs/compression/compression_structs.py:269 | a marker at the very start of the buffer ends the loop as written before anything is decoded, while the corrected loop decodes there |
| Fingerprint.HitsMissStartExample | extractor/structs/compression/compression_structs.py:269 | for a 16-byte buffer holding one entry with widths (11, 4) at offset 0, the loop as written decodes nothing and the corrected loop decodes it |
| Fingerprint.StoredLooking | extractor/structs/compression/compression_structs.py:281-294 | the test `search_uncompressed` applies: aligned, both sizes nonzero and within 3 of each other; stated by Fingerprint.SearchUncompressed and Fingerprint.SearchUncompressedIs |
| Fingerprint.StoredHits | extractor/structs/compression/compression_structs.py:286-297 | the loop of `search_uncompressed` visits zero words that each have a whole entry after them and resumes one byte after each |
| Fingerprint.SearchUncompressed | extractor/structs/compression/compression_structs.py:280-298 | every entry found has an aligned non-zero location, non-zero sizes within 3 of each other, fields in range and the file name |
| Fingerprint.StoredHitsComplete | extractor/structs/compression/compression_structs.py:286-297 | the stored-data loop visits every zero word with a whole entry after it |
| Fingerprint.SearchUncompressedIs | extractor/structs/compression/compression_structs.py:280-298 | the scan keeps exactly the entries, decoded at zero words, that pass its test |
| Fingerprint.SearchUncompressedWidths | extractor/structs/compression/compression_structs.py:280-298 | an entry found by the stored-data scan has zero widths |
| Paths.Join | extractor/run/file_discovery.py:160 | `join(dir, name)` ends with `name` |
| Paths.BaseName | extractor/run/file_discovery.py:160 | the base name of a path holds no `/` and is no longer than the path |
| Paths.DirPart | extractor/run/file_discovery.py:160 | the directory part of a path is empty or ends with `/` |
| Paths.DirPartBaseName | extractor/run/file_discovery.py:160 | a path is its directory part followed by its base name |
| Paths.BaseNameAppend | extractor/run/file_discovery.py:160 | appending a name without `/` extends the base name by that name |
| Paths.JoinSplits | extractor/run/file_discovery.py:160 | joining a name without `/` to a directory gives a path whose base name is that name and which starts with the directory |
| Paths.DirAppend | extractor/run/file_discovery.py:225 | appending a name without `/` keeps the directory part |
| Paths.FirstKept | extractor/run/file_discovery.py:210 | the first character from a position on that `strip` keeps, with every one skipped in the set |
| Paths.LastKept | extractor/run/file_discovery.py:210 | the end of the last character that `strip` keeps, with every one cut in the set |
| Paths.Strip | extractor/run/file_discovery.py:210 | `s.strip(chars)` is never longer than `s` |
| Paths.StripIs | extractor/run/file_discovery.py:210 | `s.strip(chars)` is the middle of `s` whose cut ends are all in `chars` and which neither starts nor ends with one of them |
| Paths.StripIdempotent | extractor/run/file_discovery.py:300 | stripping twice is stripping once |
| Paths.StripNothing | extractor/run/file_discovery.py:300 | a string that neither starts nor ends with a character of `chars` is left alone |
| Discovery.CollectOf | extractor/run/file_discovery.py:178-181 | the union of a search over the buffers fails only with the error of a buffer's search |
| Discovery.CollectOfIs | extractor/run/file_discovery.py:178-181 | the union succeeds iff every buffer's search does, and then holds exactly what some buffer's search finds |
| Discovery.SearchCompressionAll | extractor/run/file_discovery.py:178-180 | the fingerprint searches of all buffers fail only with OverflowError or the out-of-bytes error |
| Discovery.SearchUncompressedAll | extractor/run/file_discovery.py:178-181 | the union of the stored-data searches, which cannot fail; stated by Discovery.CollectOfIs, and through Discovery.SearchAll by Discovery.CandidatesLook |
| Discovery.SearchAll | extractor/run/file_discovery.py:178-181 | the search loop over the rels fails only with OverflowError or the out-of-bytes error |
| Discovery.CandidatesLook | extractor/run/file_discovery.py:178-181 | every compressed candidate carries the widths searched for and an aligned location past 0; every raw candidate passes the stored-data test; all name the archive and fit |
| Discovery.DropMatching | extractor/run/file_discovery.py:189 | the filter by one rel never lengthens the list |
| Discovery.DropRels | extractor/run/file_discovery.py:186-189 | the filter by all rels never lengthens the list |
| Discovery.DropMatchingIs | extractor/run/file_discovery.py:189 | an entry survives one rel's filter iff it was listed and the rel differs from it in more than the file name |
| Discovery.DropRelsIs | extractor/run/file_discovery.py:186-189 | an entry survives iff it was listed and no rel equals it in every field but the file name |
| Discovery.DropMatchingSorted | extractor/run/file_discovery.py:189 | one rel's filter keeps the disc-location order |
| Discovery.DropRelsSorted | extractor/run/file_discovery.py:186-189 | the filter keeps the disc-location order |
| Discovery.Ordered | extractor/run/file_discovery.py:183-189 | `list_entries` after the sort and the filter; stated by Discovery.OrderedIs |
| Discovery.OrderedIs | extractor/run/file_discovery.py:183-189 | `list_entries` comes out sorted by disc location and holds exactly the candidates equal to no rel |
| Discovery.Window | extractor/run/file_discovery.py:316-317 | the bytes checked are the entry's compressed bytes, cut short at the end of the file |
| Discovery.IsDecompressionValid | extractor/run/file_discovery.py:316-318 | `is_decompression_valid`; stated by Discovery.IsDecompressionValidAgrees |
| Discovery.IsDecompressionValidAgrees | extractor/run/file_discovery.py:316-318 | `is_decompression_valid` is True exactly when the window decompresses and False exactly on a bad back-reference |
| Discovery.Probe | extractor/run/file_discovery.py:222 | the decoder of one probe: 400 bytes, widths (11, 4), expecting 200 bytes; stated by Discovery.ProbeAtAgrees |
| Discovery.ProbeAt | extractor/run/file_discovery.py:222 | the probe's `is_valid_decompression`; stated by Discovery.ProbeAtAgrees |
| Discovery.ProbeAtAgrees | extractor/run/file_discovery.py:222 | a probe hit is exactly a 400-byte window with widths (11, 4) that decodes its 200 bytes |
| Discovery.Rename | extractor/run/file_discovery.py:210 | the renamed entry is the old one with only the output name changed |
| Discovery.RenameKeeps | extractor/run/file_discovery.py:210 | renaming changes neither the claimed range, nor whether the entry fits, nor any field but the output name |
| Discovery.ClaimAll | extractor/run/file_discovery.py:197-201 | `add_range` of each range in turn; stated by Discovery.ClaimAllCovers |
| Discovery.Seed | extractor/run/file_discovery.py:169-201 | the state before the compressed candidates are checked; stated by Discovery.SeedIs |
| Discovery.ClaimAllCovers | extractor/run/file_discovery.py:197-200 | claiming non-empty ranges one by one keeps the mapping canonical, and it covers afterwards exactly what it covered and the claimed ranges |
| Discovery.RangesOf | extractor/run/file_discovery.py:200 | the ranges of a list are the `to_range` of each entry, in order |
| Discovery.SeedIs | extractor/run/file_discovery.py:169-200 | after seeding, the compressed list is the known one, each known raw file is listed twice, and the mapping covers exactly the known raw ranges |
| Discovery.AcceptWhere | extractor/run/file_discovery.py:205-212 | the loop over candidates only appends to the accepted list |
| Discovery.AcceptWhereIs | extractor/run/file_discovery.py:205-212 | the entries appended are exactly the renamed candidates whose check says True |
| Discovery.AcceptWhereClaims | extractor/run/file_discovery.py:205-212 | the loop fails iff some check fails; otherwise the mapping stays canonical and covers what it did plus the ranges of the accepted candidates |
| Discovery.AcceptCompressed | extractor/run/file_discovery.py:205-212 | checking the compressed candidates changes only the compressed list and the mapping |
| Discovery.LoadFitting | extractor/run/file_discovery.py:133-141 | `from_dict` of a dictionary with fitting values gives the entry with exactly those fields |
| Discovery.Unreferenced | extractor/run/file_discovery.py:223-232 | the record a probe hit makes; stated by Discovery.UnreferencedFields |
| Discovery.UnreferencedFields | extractor/run/file_discovery.py:223-231 | a probe record succeeds iff the offset fits 32 bits, and names that offset with widths (11, 4) and sizes and flag 0 |
| Discovery.ProbeStep | extractor/run/file_discovery.py:220-233 | one pass of the probe loop; stated by Discovery.StepCanonical, Discovery.StepClaims, Discovery.StepCovers and Discovery.StepTaken |
| Discovery.ProbeAll | extractor/run/file_discovery.py:219-233 | the probe loop over the whole archive; stated by Discovery.ProbedFit and, through Discovery.ProbeFrom, by Discovery.ProbeFromKeeps and Discovery.ProbeFromSound |
| Discovery.ProbeFrom | extractor/run/file_discovery.py:219-232 | the probe loop only appends to the recorded list; it skips an offset when the as-written `i in file_mapping` says True |
| Discovery.ProbeUnfold | extractor/run/file_discovery.py:219-232 | a loop that succeeds is one probe step followed by the loop from the next sector; the step records an entry only where the as-written `in` says False, the probe hits, and the record and range can be made |
| Discovery.ProbeFromKeeps | extractor/run/file_discovery.py:219-232 | the probe loop keeps the mapping canonical and keeps what it covered |
| Discovery.ProbeFromComplete | extractor/run/file_discovery.py:219-232 | every sector boundary where the probe hits ends up covered |
| Discovery.ProbeFromSound | extractor/run/file_discovery.py:219-232 | every recorded entry comes from a sector boundary, reached after some number of steps, that the as-written `in` did not report for that step's mapping and where the probe hit; an offset the starting mapping already covered is recorded again only when that step's mapping holds exactly two ranges |
| Discovery.StepsKeep | extractor/run/file_discovery.py:219-232 | any number of probe steps keep the mapping canonical and keep what it covered |
| Discovery.StepTaken | extractor/run/file_discovery.py:220-232 | a step that records an entry found an offset the as-written `in` did not report, which the mapping covers only when it holds two ranges, and the probe hit there |
| Discovery.ProbeFreshWhenExact | extractor/run/file_discovery.py:220 | when the mapping at the recording step does not hold exactly two ranges, the recorded offset was not covered by the starting mapping |
| Discovery.ProbeFromMakes | extractor/run/file_discovery.py:219-232 | every recorded entry is the record made for some offset of the loop |
| Discovery.StepCanonical | extractor/run/file_discovery.py:220-232 | one probe step keeps the mapping canonical |
| Discovery.StepClaims | extractor/run/file_discovery.py:222-232 | a step that hits an offset the as-written `in` does not report claims it |
| Discovery.StepCovers | extractor/run/file_discovery.py:220-232 | one step covers what was covered and at most `[i, i + 200)` besides |
| Discovery.FormHits | extractor/run/file_discovery.py:237-285 | the marker positions the form loop visits; stated by Discovery.FormHitsAre |
| Discovery.FormMarkersApart | extractor/run/file_discovery.py:242 | two occurrences of `AdGCForm` never overlap |
| Discovery.FormHitsAre | extractor/run/file_discovery.py:245-284 | the form loop visits exactly the occurrences of `AdGCForm`, in increasing order |
| Discovery.Little | extractor/run/file_discovery.py:251 | `int.from_bytes(b, 'little')` of four bytes, as `unpack('<I')` reads them; stated by Discovery.LittleBytes and Discovery.LittleRoundTrip |
| Discovery.LittleBytes | extractor/run/file_discovery.py:251 | a 32-bit word is four little-endian bytes |
| Discovery.LittleRoundTrip | extractor/run/file_discovery.py:251 | little-endian words read back as written, and bytes as read |
| Discovery.ReadHeader | extractor/run/file_discovery.py:249-253 | `unpack('<II', ...)` gives a flag below 16, a size below 2^28 and a 32-bit compression word |
| Discovery.HeaderBytes | extractor/run/file_discovery.py:249-253 | a form header is eight bytes |
| Discovery.HeaderRoundTrip | extractor/run/file_discovery.py:249-253 | headers read back as written, and bytes as read |
| Discovery.Tail | extractor/run/file_discovery.py:264 | the bytes from a position on are no longer than the data |
| Discovery.FormName | extractor/run/file_discovery.py:271 | the output name of a form; stated by Discovery.FormAtFields |
| Discovery.FormAt | extractor/run/file_discovery.py:246-277 | a form record fits the packed field widths |
| Discovery.FormAtFields | extractor/run/file_discovery.py:246-277 | a form record holds the header's flag and size and the location after the marker; widths 0 and the size as compressed size for flag 0, otherwise the compression word's widths and the size decoding reads; it fails exactly on a failing decode or an out-of-range value |
| Discovery.FormsFrom | extractor/run/file_discovery.py:245-287 | the form loop from one position on; stated by Discovery.FormsFromIs |
| Discovery.Forms | extractor/run/file_discovery.py:235-287 | the forms of the archive; stated by Discovery.FormsFromIs and Discovery.FormsFit |
| Discovery.FormsFromIs | extractor/run/file_discovery.py:245-284 | the form loop succeeds iff every visited marker has eight header bytes before it and records, and then holds one record per marker in order |
| Discovery.PlaceRaw | extractor/run/file_discovery.py:291-302 | the raw loop over the sorted raw candidates; stated by Discovery.PlacedFit and, through Discovery.AcceptFree, by Discovery.AcceptFreeCovers and Discovery.AcceptFreeSkips |
| Discovery.AcceptFree | extractor/run/file_discovery.py:291-301 | the raw loop only appends to the raw list |
| Discovery.ClaimsCons | extractor/run/file_discovery.py:291-301 | the points a list claims are those of its head and those of its tail |
| Discovery.NoOverlapApart | extractor/run/file_discovery.py:296 | a range `does_overlap` passes shares no point with the mapping |
| Discovery.OverlapTouches | extractor/run/file_discovery.py:296 | a range `does_overlap` catches on a canonical mapping touches a covered point inside it or just before it |
| Discovery.AcceptFreeCovers | extractor/run/file_discovery.py:291-301 | the raw loop cannot fail, keeps the mapping canonical, and covers afterwards exactly what it did and the ranges of the added entries |
| Discovery.AcceptFreeApart | extractor/run/file_discovery.py:291-301 | every added raw entry shares no point with the earlier mapping nor with any other added entry |
| Discovery.AcceptFreeFrom | extractor/run/file_discovery.py:291-301 | every added raw entry is a renamed candidate |
| Discovery.AcceptFreeSkips | extractor/run/file_discovery.py:291-301 | every raw candidate is either added or touches a point the final mapping covers |
| Discovery.ToDicts | extractor/run/file_discovery.py:303-308 | the output lists are the `to_dict` of each entry, in order |
| Discovery.CheckedFit | extractor/run/file_discovery.py:205-212 | the checked compressed list fits when the known list and the candidates do |
| Discovery.ProbedFit | extractor/run/file_discovery.py:223-231 | every probe record fits |
| Discovery.FormsFit | extractor/run/file_discovery.py:268-277 | every form record fits |
| Discovery.PlacedFit | extractor/run/file_discovery.py:291-301 | the placed raw list fits when the earlier list and the candidates do |
| Discovery.LoadsBack | extractor/run/file_discovery.py:303-308 | every dictionary written for fitting entries loads back into the entry it came from |
| Discovery.CandidatesFit | extractor/run/file_discovery.py:178-192 | every candidate the steps consider fits the packed widths |
| Discovery.Discover | extractor/run/file_discovery.py:115-314 | `discover_files` from the first search on; stated by Discovery.DiscoverLoads and Discovery.DiscoverKeepsKnown |
| Discovery.DiscoverLoads | extractor/run/file_discovery.py:115-313 | every dictionary of the output object loads back into the entry it was written from |
| Discovery.DiscoverKeepsKnown | extractor/run/file_discovery.py:169-200 | the known compressed files open the compressed list, and the known raw files, twice over, open the raw list |
| Records.ParseTree | extractor/structs/common.py:36-41 | a tree parses exactly when 8 bytes remain, and fails with the out-of-bytes error otherwise |
| Records.EncodeTree | extractor/structs/common.py:37 | a tree is 8 bytes |
| Records.TreeRoundTrip | extractor/structs/common.py:37-41 | the root pointer is read back from bytes 4 to 7 as written |
| Records.RelocateTree | extractor/structs/common.py:43-45 | `add_offset` moves a non-null root by the offset and leaves a null root null |
| Records.ParseBranch | extractor/structs/common.py:50-58 | a branch parses exactly when 16 bytes remain, and fails with the out-of-bytes error otherwise |
| Records.EncodeBranch | extractor/structs/common.py:51 | a branch is 16 bytes |
| Records.BranchRoundTrip | extractor/structs/common.py:51-58 | the four links read back as written, in the order previous, next, parent, first child |
| Records.BranchBytesRoundTrip | extractor/structs/common.py:51-58 | any 16 bytes parse into a branch that encodes back into them |
| Records.RelocateBranch | extractor/structs/common.py:60-68 | `add_offset` moves exactly the non-null links by the offset |
| Records.RelocateBranchTwice | extractor/structs/common.py:60-68 | relocating by `a` then `c` is relocating by `a + c`, and by 0 changes nothing |
| Records.ParseGeoPaletteHeader | extractor/structs/geo_palette/gpl_structs.py:3-13 | a header parses exactly when 20 bytes remain, and fails with the out-of-bytes error otherwise |
| Records.EncodeGeoPaletteHeader | extractor/structs/geo_palette/gpl_structs.py:4 | a header is 20 bytes |
| Records.GeoPaletteHeaderRoundTrip | extractor/structs/geo_palette/gpl_structs.py:4-13 | the five words read back as written, in declared order |
| Records.GeoPaletteHeaderBytesRoundTrip | extractor/structs/geo_palette/gpl_structs.py:4-13 | any 20 bytes parse into a header that encodes back into them |
| Records.RelocateGeoPaletteHeader | extractor/structs/geo_palette/gpl_structs.py:15-20 | `add_offset` moves the non-null descriptor-array and user-data pointers, and leaves version, size and count alone |
| Records.RelocateGeoPaletteHeaderTwice | extractor/structs/geo_palette/gpl_structs.py:15-20 | relocating twice is relocating once by the sum, and by 0 changes nothing |
| Records.ParseGeoDescriptor | extractor/structs/geo_palette/gpl_structs.py:33-42 | a descriptor parses exactly when 8 bytes remain, and starts without a name |
| Records.EncodeGeoDescriptor | extractor/structs/geo_palette/gpl_structs.py:34 | a descriptor is 8 bytes |
| Records.GeoDescriptorRoundTrip | extractor/structs/geo_palette/gpl_structs.py:34-42 | the display-object pointer and then the name pointer read back as written; the name is not stored |
| Records.RelocateGeoDescriptor | extractor/structs/geo_palette/gpl_structs.py:44-49 | `add_offset` moves the non-null pointers and keeps the name |
| Records.SetName | extractor/structs/geo_palette/gpl_structs.py:51-52 | `set_name` sets the name and changes nothing else |
| Records.RelocateGeoDescriptorTwice | extractor/structs/geo_palette/gpl_structs.py:44-49 | relocating twice is relocating once by the sum, and by 0 changes nothing |
| Records.ParseActorLayout | extractor/structs/actor/actor_struct.py:4-17 | a layout fails only with the out-of-bytes error (exactly when fewer than 32 bytes remain) or the failed version assertion, and carries version 0x7B7960 |
| Records.ActorLayoutChecks | extractor/structs/actor/actor_struct.py:16-17 | the assertion fails exactly on a full record whose first word is not 0x7B7960, and the bone tree is the tree read at `offset + 8` |
| Records.EncodeActorLayout | extractor/structs/actor/actor_struct.py:5 | a layout is 32 bytes |
| Records.ActorLayoutRoundTrip | extractor/structs/actor/actor_struct.py:5-17 | version, actor id, bone count, tree, GEO palette name, skin file id, user data size and pointer read back as written |
| Records.RelocateActorLayout | extractor/structs/actor/actor_struct.py:19-24 | `add_offset` moves the non-null user-data and palette-name pointers and the tree root, and nothing else |
| Records.RelocateActorLayoutTwice | extractor/structs/actor/actor_struct.py:19-24 | relocating twice is relocating once by the sum, and by 0 changes nothing |
| Records.ParseBone | extractor/structs/actor/bones.py:3-28 | a bone parses exactly when 28 bytes remain, and starts with no link resolved |
| Records.BoneBranchAt | extractor/structs/actor/bones.py:22 | the branch of a bone is the branch read at `offset + 4` |
| Records.EncodeBone | extractor/structs/actor/bones.py:4-11 | a bone is 28 bytes |
| Records.BoneRoundTrip | extractor/structs/actor/bones.py:4-22 | the CTRL pointer, the branch, GEO file id, bone id, inheritance flag and drawing priority read back as written |
| Records.RelocateBone | extractor/structs/actor/bones.py:30-33 | `add_offset` moves a non-null CTRL pointer, relocates the branch and keeps the other fields |
| Records.RelocateBoneTwice | extractor/structs/actor/bones.py:30-33 | relocating twice is relocating once by the sum, and by 0 changes nothing |
| Records.StadiumTemplate | extractor/helper_c3.py:9-29 | the stadium template maps the stadium group to parts 0, 3, 5, 2 for its four sections and the backdrop to parts 1 and 4 for actor and geometry |
| DisplayObject.DecodeQuantize | extractor/structs/display_object/display_object_structs.py:45-75 | a quantize byte fails with KeyError exactly when its format nibble is past 5; otherwise it splits into format and shift, signed exactly for the odd formats, with a component of 1, 2 or 4 bytes |
| DisplayObject.ShiftIsLowNibble | extractor/structs/display_object/display_object_structs.py:74 | the shift is `info & 0xf` |
| DisplayObject.DecodeColorFormat | extractor/structs/display_object/display_object_structs.py:96-115 | a colour byte fails with KeyError exactly when its format is past 5; otherwise the format is `info >> 4`, it has alpha exactly from format 3 on, and a colour takes `2 + format % 3` bytes |
| DisplayObject.ParseObjectLayout | extractor/structs/display_object/display_object_structs.py:3-14 | the layout parses exactly when 24 bytes remain, and fails with the out-of-bytes error otherwise |
| DisplayObject.EncodeObjectLayout | extractor/structs/display_object/display_object_structs.py:4 | the layout is 24 bytes |
| DisplayObject.ObjectLayoutRoundTrip | extractor/structs/display_object/display_object_structs.py:4-14 | five section pointers and the texture count read back as written |
| DisplayObject.RelocateObjectLayout | extractor/structs/display_object/display_object_structs.py:16-30 | `add_offset` moves exactly the non-null section pointers and keeps the texture count |
| DisplayObject.RelocateObjectLayoutTwice | extractor/structs/display_object/display_object_structs.py:16-30 | relocating twice is relocating once by the sum, and by 0 changes nothing |
| DisplayObject.ParsePositionHeader | extractor/structs/display_object/display_object_structs.py:64-75 | the header fails with the out-of-bytes error exactly when fewer than 8 bytes remain, otherwise only with KeyError from the quantize table |
| DisplayObject.EncodePositionHeader | extractor/structs/display_object/display_object_structs.py:43 | the header is 8 bytes |
| DisplayObject.PositionHeaderRoundTrip | extractor/structs/display_object/display_object_structs.py:43-75 | array pointer, count, quantize byte and component count read back as written, with the quantize byte decoded again |
| DisplayObject.RelocatePositionHeader | extractor/structs/display_object/display_object_structs.py:78-80 | `add_offset` moves a non-null array pointer and keeps everything else |
| DisplayObject.RelocatePositionHeaderTwice | extractor/structs/display_object/display_object_structs.py:78-80 | relocating twice is relocating once by the sum, and by 0 changes nothing |
| DisplayObject.ParseColorHeader | extractor/structs/display_object/display_object_structs.py:105-115 | the header fails with the out-of-bytes error exactly when fewer than 8 bytes remain, otherwise only with KeyError from the colour table |
| DisplayObject.EncodeColorHeader | extractor/structs/display_object/display_object_structs.py:94 | the header is 8 bytes |
| DisplayObject.ColorHeaderRoundTrip | extractor/structs/display_object/display_object_structs.py:94-115 | the colour header reads back as written |
| DisplayObject.RelocateColorHeader | extractor/structs/display_object/display_object_structs.py:117-119 | `add_offset` moves a non-null colour array pointer and keeps everything else |
| DisplayObject.RelocateColorHeaderTwice | extractor/structs/display_object/display_object_structs.py:117-119 | relocating twice is relocating once by the sum, and by 0 changes nothing |
| DisplayObject.ParseTextureHeader | extractor/structs/display_object/display_object_structs.py:153-168 | the header fails with the out-of-bytes error exactly when fewer than 16 bytes remain, otherwise only with KeyError; it starts without a palette name |
| DisplayObject.EncodeTextureHeader | extractor/structs/display_object/display_object_structs.py:132 | the header is 16 bytes |
| DisplayObject.TextureHeaderRoundTrip | extractor/structs/display_object/display_object_structs.py:132-168 | coordinate pointer, count, quantize byte, component count, palette name and palette pointers read back as written |
| DisplayObject.RelocateTextureHeader | extractor/structs/display_object/display_object_structs.py:170-178 | `add_offset` moves the three non-null pointers and keeps everything else |
| DisplayObject.RelocateTextureHeaderTwice | extractor/structs/display_object/display_object_structs.py:170-178 | relocating twice is relocating once by the sum, and by 0 changes nothing |
| DisplayObject.ParseDisplayHeader | extractor/structs/display_object/display_object_structs.py:192-200 | the header parses exactly when 12 bytes remain |
| DisplayObject.EncodeDisplayHeader | extractor/structs/display_object/display_object_structs.py:193 | the header is 12 bytes |
| DisplayObject.DisplayHeaderRoundTrip | extractor/structs/display_object/display_object_structs.py:193-200 | primitive bank, state list pointer and state count read back as written |
| DisplayObject.RelocateDisplayHeader | extractor/structs/display_object/display_object_structs.py:202-207 | `add_offset` moves the non-null pointers and keeps the count |
| DisplayObject.RelocateDisplayHeaderTwice | extractor/structs/display_object/display_object_structs.py:202-207 | relocating twice is relocating once by the sum, and by 0 changes nothing |
| DisplayObject.ParseLightingHeader | extractor/structs/display_object/display_object_structs.py:240-252 | the header fails with the out-of-bytes error exactly when fewer than 12 bytes remain, otherwise only with KeyError |
| DisplayObject.EncodeLightingHeader | extractor/structs/display_object/display_object_structs.py:219 | the header is 12 bytes |
| DisplayObject.LightingHeaderRoundTrip | extractor/structs/display_object/display_object_structs.py:219-252 | normal pointer, count, quantize byte, component count and the brightness bits read back as written |
| DisplayObject.RelocateLightingHeader | extractor/structs/display_object/display_object_structs.py:255-257 | `add_offset` moves a non-null normal array pointer and keeps everything else |
| DisplayObject.RelocateLightingHeaderTwice | extractor/structs/display_object/display_object_structs.py:255-257 | relocating twice is relocating once by the sum, and by 0 changes nothing |
| DisplayObject.ParseDisplayStateEntry | extractor/structs/display_object/display_object_structs.py:270-279 | an entry parses exactly when 16 bytes remain |
| DisplayObject.EncodeDisplayStateEntry | extractor/structs/display_object/display_object_structs.py:271 | an entry is 16 bytes |
| DisplayObject.DisplayStateEntryRoundTrip | extractor/structs/display_object/display_object_structs.py:271-279 | state id, setting, primitive list pointer and length read back as written |
| DisplayObject.RelocateDisplayStateEntry | extractor/structs/display_object/display_object_structs.py:281-283 | `add_offset` moves only a non-null primitive list pointer |
| DisplayObject.RelocateDisplayStateEntryTwice | extractor/structs/display_object/display_object_structs.py:281-283 | relocating twice is relocating once by the sum, and by 0 changes nothing |
| DisplayState.DecodeTextureSetting | extractor/structs/display_object/display_state_structs.py:6-17 | a decoded texture binding has an 8-bit index, a 3-bit layer and four 4-bit fields |
| DisplayState.TextureSettingBits | extractor/structs/display_object/display_state_structs.py:6-17 | the index is bits 0-7, the layer bits 13-15, wrapS 16-19, wrapT 20-23, minFilter 24-27 and magFilter 28-31 of the setting |
| DisplayState.EncodeTextureSetting | extractor/structs/display_object/display_state_structs.py:6-17 | the setting word of a texture binding fits 32 bits |
| DisplayState.TextureSettingRoundTrip | extractor/structs/display_object/display_state_structs.py:6-17 | a binding decodes back from its setting word |
| DisplayState.TextureSettingComplete | extractor/structs/display_object/display_state_structs.py:6-17 | a 32-bit setting with bits 8-12 clear is determined by the fields decoded from it |
| DisplayState.LowBitsClear | extractor/structs/display_object/display_state_structs.py:7-8 | with bits 8-12 clear the low 13 bits are the low byte |
| DisplayState.BitGroups | extractor/structs/display_object/display_state_structs.py:26-37 | the walk yields `n` fields of `w` bits each |
| DisplayState.BitGroupsAt | extractor/structs/display_object/display_state_structs.py:26-37 | field `i` of the walk holds bits `w·i` to `w·i + w` of the setting |
| DisplayState.BitGroupsJoin | extractor/structs/display_object/display_state_structs.py:26-37 | the fields joined back give the low `w·n` bits of the setting |
| DisplayState.ModSplit | extractor/structs/display_object/display_state_structs.py:26-37 | the low bits below `p·q` are those below `p` and the next ones above them |
| DisplayState.JoinGroupsSplit | extractor/structs/display_object/display_state_structs.py:26-37 | fields that fit their width, joined and walked again, come back unchanged |
| DisplayState.DecodeVcdSetting | extractor/structs/display_object/display_state_structs.py:22-37 | the decoded VCD keeps the setting word and has 2 colour and 8 texture-coordinate fields |
| DisplayState.VcdSettingBits | extractor/structs/display_object/display_state_structs.py:22-37 | every VCD field is in 0..3 and sits at its bit position: posMtx 0, position 2, normal 4, colours from 6, texture coordinates from 10 |
| DisplayState.DecodeMtxLoadSetting | extractor/structs/display_object/display_state_structs.py:42-44 | the destination index is the low 16 bits and the source index the rest, so together they rebuild the word |
| DisplayState.ComponentSize | extractor/structs/display_object/display_state_structs.py:76-82 | the size of an attribute field is 0, 1 or 2 for fields 0, 2, 3, and any other field is a KeyError |
| DisplayState.ComponentField | extractor/structs/display_object/display_state_structs.py:81 | each component field is in 0..3 |
| DisplayState.ComponentFields | extractor/structs/display_object/display_state_structs.py:81 | there are thirteen component fields |
| DisplayState.ComponentFieldsAreGroups | extractor/structs/display_object/display_state_structs.py:22-37 | the fields `getComponents` reads are the fields the VCD decoder walks |
| DisplayState.Sizes | extractor/structs/display_object/display_state_structs.py:82 | the sizes fail exactly when some field is not in the table, and otherwise are the table's size for each field |
| DisplayState.SumPrefix | extractor/structs/display_object/display_state_structs.py:84-90 | each prefix sum grows by the next size and stays below the total |
| DisplayState.ComponentsFromSizes | extractor/structs/display_object/display_state_structs.py:83-91 | there are 8 texture-coordinate sizes and offsets |
| DisplayState.ComponentsPacked | extractor/structs/display_object/display_state_structs.py:83-91 | every attribute lies inside the vertex, the normal follows the position and each texture coordinate follows the previous one |
| DisplayState.ComponentsOf | extractor/structs/display_object/display_state_structs.py:75-92 | `getComponents` fails exactly when some field is 1 (direct), and otherwise packs the sizes of the thirteen fields |
| DisplayState.ComponentsMatchVcd | extractor/structs/display_object/display_state_structs.py:75-92 | the position, normal and texture-coordinate sizes are the sizes of the VCD decoder's fields |
| DisplayState.SetSetting | extractor/structs/display_object/display_state_structs.py:94-107 | `setSetting` fails with ValueError exactly for an unknown state id and changes only the setting its id names |
| DisplayState.TextureIndex | extractor/structs/display_object/display_state_structs.py:72-73 | `getTextureIndex` is the bound index of a layer that has a binding and None otherwise |
| DisplayState.SourceMatrixIndex | extractor/structs/display_object/display_state_structs.py:66-67 | the source index is an AttributeError before any matrix load |
| DisplayState.DestinationMatrixIndex | extractor/structs/display_object/display_state_structs.py:69-70 | the destination index is an AttributeError before any matrix load |
| DisplayState.HelperComponents | extractor/structs/display_object/display_state_structs.py:75-92 | `getComponents` is an AttributeError before any VCD setting |
| DisplayState.TextureIndexLatest | extractor/structs/display_object/display_state_structs.py:95-98 | a texture setting replaces the binding of its own layer and no other |
| DisplayState.InitialTextureIndex | extractor/structs/display_object/display_state_structs.py:51-55 | a new helper has no texture binding, no VCD and no matrix load |
| DisplayState.VcdSettingComponents | extractor/structs/display_object/display_state_structs.py:103-104 | after a VCD setting, `getComponents` describes that setting word |
| DisplayState.MtxLoadIndices | extractor/structs/display_object/display_state_structs.py:100-101 | after a matrix load the source and destination indices split the word |
| Anim.RelocateBank | extractor/helper_anim.py:35-37 | `add_offset` moves a non-null sequence array pointer and changes no other field |
| Anim.ReadBank | extractor/helper_anim.py:19-30 | a bank header read from 24 bytes fits its field widths |
| Anim.ParseBank | extractor/helper_anim.py:21-32 | a bank fails with the out-of-bytes error exactly when fewer than 24 bytes remain, and is otherwise the header relocated by its own offset |
| Anim.EncodeBank | extractor/helper_anim.py:19 | a bank header is 24 bytes |
| Anim.EncodeBankHead | extractor/helper_anim.py:19 | the first half of the header is 12 bytes |
| Anim.EncodeBankTail | extractor/helper_anim.py:19 | the second half of the header is 12 bytes |
| Anim.BankRoundTrip | extractor/helper_anim.py:19-32 | a header written at `offset` reads back with its sequence array relocated by `offset` |
| Anim.BankHeadRead | extractor/helper_anim.py:22-25 | version, sequence array, bank id and sequence count sit at bytes 0, 4, 8 and 10 |
| Anim.BankTailRead | extractor/helper_anim.py:26-29 | track count, keyframe count, user-data size and pointer sit at bytes 12, 14, 16 and 20 |
| Anim.RelocateSequence | extractor/helper_anim.py:70-72 | `add_offset` moves only a non-null name pointer |
| Anim.ParseSequence | extractor/helper_anim.py:57-64 | a sequence fails with the out-of-bytes error exactly when fewer than 12 bytes remain |
| Anim.EncodeSequence | extractor/helper_anim.py:55 | a sequence header is 12 bytes |
| Anim.SequenceRoundTrip | extractor/helper_anim.py:55-64 | a sequence written at `offset` reads back with its name relocated by `offset`; the fourth halfword is discarded |
| Anim.ParseTrack | extractor/helper_anim.py:87-96 | a track fails with the out-of-bytes error exactly when fewer than 16 bytes remain |
| Anim.EncodeTrack | extractor/helper_anim.py:85 | a track is 16 bytes |
| Anim.EncodeTrackHead | extractor/helper_anim.py:85 | the first part of a track is 12 bytes |
| Anim.EncodeTrackTail | extractor/helper_anim.py:85 | the packed bytes of a track are 4 bytes |
| Anim.TrackRoundTrip | extractor/helper_anim.py:85-96 | tracks are not relocated: one written anywhere reads back unchanged |
| Anim.TrackHeadRead | extractor/helper_anim.py:88-91 | time, keyframe array, keyframe count and track id sit at bytes 0, 4, 8 and 10 |
| Anim.DecodeAnimTypes | extractor/helper_anim.py:98-104 | the `animTypes` flags; stated by Anim.AnimTypesBits and Anim.AnimTypesRoundTrip |
| Anim.EncodeAnimTypes | extractor/helper_anim.py:98-104 | a set of animation flags is a value below 32 |
| Anim.AnimTypesBits | extractor/helper_anim.py:98-104 | matrix is bit 4, quatRot bit 3, eulerRot bit 2, scale bit 1 and trans bit 0 of the animation type |
| Anim.AnimTypesRoundTrip | extractor/helper_anim.py:98-104 | decoding the byte of a set of flags gives the set back |
| Anim.DecodeInterpolationTypes | extractor/helper_anim.py:105-109 | rotation is below 8, scale and translation below 4 |
| Anim.InterpolationTypesComplete | extractor/helper_anim.py:105-109 | for a byte with bit 7 clear, rotation bits 4-6, scale bits 2-3 and translation bits 0-1 rebuild it |
| Anim.InterpolationName | extractor/helper_anim.py:119-129 | `_describe_interpolation`; stated by Anim.InterpolationNamesDistinct |
| Anim.InterpolationNamesDistinct | extractor/helper_anim.py:119-129 | the seven kinds have distinct names and exactly the values past 6 are "Unknown" |
| Anim.ParseKeyframe | extractor/helper_anim.py:143-151 | a keyframe fails with the out-of-bytes error exactly when fewer than 12 bytes remain |
| Anim.EncodeKeyframe | extractor/helper_anim.py:144 | a keyframe is 12 bytes |
| Anim.KeyframeRoundTrip | extractor/helper_anim.py:144-151 | a keyframe reads back as written |
| Anim.ParseTrackTree | extractor/helper_anim.py:87-117 | a track holds `numberOfKeyframes` keyframes, the `i`-th parsed at the stored keyframe pointer plus 12·i |
| Anim.ParseSequenceTree | extractor/helper_anim.py:57-65 | a sequence holds `numberOfTracks` tracks, the `i`-th parsed at the unrelocated track pointer plus 16·i |
| Anim.ParseBankTree | extractor/helper_anim.py:21-33 | a bank holds `numberOfSequences` sequences, the `i`-th parsed at the relocated sequence pointer plus 12·i; a short header is the out-of-bytes error |
| Anim.BankTreeOk | extractor/helper_anim.py:21-33 | a bank whose header parses parses exactly when every one of its sequences does |
| Collision.GroupTypeOf | extractor/constants/collision.py:3-5 | converting a value to the group type fails with ValueError exactly for values past 1, and otherwise gives the type with that value |
| Collision.GroupTypeValue | extractor/constants/collision.py:3-5 | a group type's value is 0 or 1 |
| Collision.GroupTypeRoundTrip | extractor/constants/collision.py:3-5 | a type converted to its value and back is that type |
| Collision.RecordCount | extractor/structs/collision/collision_structs.py:51 | a strip of `count` triangles has `count + 2` vertex records, `count` singles have `3·count` |
| Collision.ParseTriangle | extractor/structs/collision/collision_structs.py:21-25 | a vertex record fails with the out-of-bytes error exactly when fewer than 16 bytes remain |
| Collision.EncodeTriangle | extractor/structs/collision/collision_structs.py:22 | a vertex record is 16 bytes |
| Collision.TriangleRoundTrip | extractor/structs/collision/collision_structs.py:22-25 | a vertex record reads back as written |
| Collision.ParseTriangleGroup | extractor/structs/collision/collision_structs.py:40-54 | a group fails on a short header and with ValueError on a type past 1; otherwise it has the header's type and count and, unless the count is 0, its vertex records 16 bytes apart right after the header |
| Collision.EncodeGroupHeader | extractor/structs/collision/collision_structs.py:41 | a group header is 4 bytes |
| Collision.TerminatorRoundTrip | extractor/structs/collision/collision_structs.py:43-48 | a zero-count header parses as an empty group of its type |
| Collision.GroupRoundTrip | extractor/structs/collision/collision_structs.py:40-54 | a group header followed by its records parses back as that group |
| Collision.GroupSize | extractor/structs/collision/collision_structs.py:100-105 | a group takes at least its 4-byte header |
| Collision.Walk | extractor/structs/collision/collision_structs.py:94-105 | the `while True` loop keeps only groups with a non-zero count |
| Collision.WalkChain | extractor/structs/collision/collision_structs.py:94-105 | each kept group is the one parsed where the previous group's header and records end |
| Collision.WalkEnd | extractor/structs/collision/collision_structs.py:94-97 | the walk ends at a zero-count group just past the last kept one |
| Collision.WalkStops | extractor/structs/collision/collision_structs.py:94-97 | a walk that starts at a terminator keeps nothing |
| Collision.GroupParserBounded | extractor/structs/collision/collision_structs.py:43-44 | a group parses only where its header fits in the bytes, so the walk ends |
| Collision.WalkGroups | extractor/structs/collision/collision_structs.py:90-105 | a collection holds only groups with a non-zero count |
| Collision.WalkGroupsChain | extractor/structs/collision/collision_structs.py:90-105 | each group of a collection is parsed where the previous ends, and a zero-count group follows the last |
| Collision.ParseVec | extractor/structs/common.py:23-28 | a vector fails with the out-of-bytes error exactly when fewer than 12 bytes remain |
| Collision.ParseBoundingBox | extractor/structs/collision/collision_structs.py:5-10 | a box is two vectors 12 bytes apart and fails exactly when fewer than 24 bytes remain |
| Collision.ParseBoxes | extractor/structs/collision/collision_structs.py:76-80 | `parse_bounding_boxes` gives `count` boxes, the `i`-th parsed 24·i bytes after the box pointer |
| Collision.ParseCollisionHeader | extractor/structs/collision/collision_structs.py:65-69 | the header fails with the out-of-bytes error exactly when fewer than 12 bytes remain |
| Collision.EncodeCollisionHeader | extractor/structs/collision/collision_structs.py:66 | the header is 12 bytes |
| Collision.CollisionHeaderRoundTrip | extractor/structs/collision/collision_structs.py:66-69 | count, unknown halfword, box pointer and first collection pointer read back as written |
| Collision.PointerAt | extractor/structs/collision/collision_structs.py:86-88 | a collection pointer is read as a 32-bit word and made absolute by adding the block's offset |
| Collision.CollectionStarts | extractor/structs/collision/collision_structs.py:85-88 | pointer `i` is read at `offset + 8 + 4·i` |
| Collision.CollectionStartsFit | extractor/structs/collision/collision_structs.py:85-88 | the pointer array fails exactly when `count` words do not fit after byte 8 |
| Collision.WalkAll | extractor/structs/collision/collision_structs.py:90-105 | every collection is the walk from its own start |
| Collision.Collections | extractor/structs/collision/collision_structs.py:107-110 | collection `i` pairs box `i` with walk `i` |
| Collision.ParseCollision | extractor/structs/collision/collision_structs.py:68-73 | a block holds its header, `count` boxes read from the box pointer made absolute, and `count` collections each with the box of its index; a short header is the out-of-bytes error |
| Collision.CollisionWalks | extractor/structs/collision/collision_structs.py:82-110 | collection `i` holds the walk from pointer `i` made absolute |
| DisplayList.QuadFaces | extractor/run_extract_Model.py:270-276 | `n` quad vertices give `n / 2` faces |
| DisplayList.QuadFacesAt | extractor/run_extract_Model.py:273-276 | quad `q` gives faces `2q` = (a, b, c) and `2q + 1` = (c, d, a) |
| DisplayList.ParseQuads | extractor/run_extract_Model.py:270-280 | `parse_quads` fails its assertion exactly when the length is not a multiple of four |
| DisplayList.Unquad | extractor/run_extract_Model.py:270-276 | the quads rebuilt from face pairs have two vertices per face |
| DisplayList.QuadsInverse | extractor/run_extract_Model.py:270-276 | the vertices are recovered from the quad faces |
| DisplayList.TriangleFaces | extractor/run_extract_Model.py:282-287 | `n` triangle vertices give `n / 3` faces |
| DisplayList.TriangleFacesAt | extractor/run_extract_Model.py:285-287 | face `q` is vertices `3q`, `3q + 1`, `3q + 2` |
| DisplayList.ParseTriangles | extractor/run_extract_Model.py:282-291 | `parse_triangles` fails its assertion exactly when the length is not a multiple of three |
| DisplayList.Flatten | extractor/run_extract_Model.py:282-287 | the corners of `n` faces are `3n` vertices |
| DisplayList.TrianglesInverse | extractor/run_extract_Model.py:282-287 | the vertices are recovered from the triangle faces |
| DisplayList.FanFaces | extractor/run_extract_Model.py:293-296 | `parse_fan` gives `len - 2` faces (none for fewer than three vertices), face `i` being (l[0], l[i+1], l[i+2]) |
| DisplayList.Unfan | extractor/run_extract_Model.py:293-296 | the vertices rebuilt from a fan are two more than its faces |
| DisplayList.FanInverse | extractor/run_extract_Model.py:293-296 | the vertices of a fan of at least three are recovered from its faces |
| DisplayList.StripFaces | extractor/run_extract_Model.py:302-308 | `parse_strip` gives `len - 2` faces, even ones in order and odd ones reversed |
| DisplayList.Unstrip | extractor/run_extract_Model.py:302-308 | the vertices rebuilt from a strip are two more than its faces |
| DisplayList.StripInverse | extractor/run_extract_Model.py:302-308 | the vertices of a strip of at least three are recovered from its faces |
| DisplayList.StripSharesEdges | extractor/run_extract_Model.py:302-308 | face `i` of a strip has corners l[i..i+3] and face `i+1` corners l[i+1..i+4] |
| DisplayList.PrimitiveOf | extractor/run_extract_Model.py:340-341 | a draw opcode is `command >> 3` in 0x10 or 0x12 to 0x17, and names the primitive with that code |
| DisplayList.PrimitiveCode | extractor/run_extract_Model.py:378-398 | each primitive has a code in 0x10 to 0x17 other than 0x11 |
| DisplayList.PrimitiveRoundTrip | extractor/run_extract_Model.py:378-398 | a primitive's code names that primitive |
| DisplayList.Assemble | extractor/run_extract_Model.py:378-401 | assembling fails an assertion exactly for lines, line strips and points, and for quads or triangles of a length that does not divide |
| DisplayList.Attribute | extractor/run_extract_Model.py:347-363 | an index is absent exactly when its size is 0, and otherwise fits its size in bytes |
| DisplayList.Records | extractor/run_extract_Model.py:345-374 | a draw of `count` reads `count` vertices |
| DisplayList.RecordIs | extractor/run_extract_Model.py:345-374 | vertex `k` is read from the `vectorSize` bytes at `start + k·vectorSize`, cut at the end of the buffer |
| DisplayList.Vertices | extractor/run_extract_Model.py:345-374 | the vertices of a draw number its count |
| DisplayList.LayoutOf | extractor/run/extract_model.py:263-270 | the newer copy reads no colour index and uses the first texture coordinate |
| DisplayList.LayoutOfHasNoColor | extractor/run/extract_model.py:263-270 | vertices read through the newer copy's layout have no colour |
| DisplayList.ParseCommands | extractor/run_extract_Model.py:327-401 | the command loop fails only with assertion failures |
| DisplayList.DrawEnd | extractor/run_extract_Model.py:343-374 | the command after a draw starts past its opcode and count |
| DisplayList.ParseIndices | extractor/run_extract_Model.py:314-403 | `parse_indices` fails only with assertion failures |
| DisplayList.EncodeCommand | extractor/run_extract_Model.py:327-374 | a command occupies as many bytes as the loop skips for it |
| DisplayList.SliceWithin | extractor/run_extract_Model.py:345 | a read inside a window of the buffer is the read of the window |
| DisplayList.RecordsWithin | extractor/run_extract_Model.py:345 | vertices read inside a window of the buffer are those read from the window |
| DisplayList.OpensEncoded | extractor/run_extract_Model.py:327-345 | a buffer holding an encoded command opens with that command's opcode, count and vertex records |
| DisplayList.ParseOne | extractor/run_extract_Model.py:327-403 | one command is parsed as that command and the loop goes on right after it |
| DisplayList.ParseSkip | extractor/run_extract_Model.py:331-337 | a register load skips its five bytes and a no-op its one byte |
| DisplayList.DrawFacts | extractor/run_extract_Model.py:340-374 | an encoded draw is seen as its primitive's opcode with format 0, its count and its vertex records, and ends after its data |
| DisplayList.ParseDraw | extractor/run_extract_Model.py:340-401 | a draw opcode whose count and vertices are known gives those faces and the loop goes on at the end of the draw |
| DisplayList.SplitEncoded | extractor/run_extract_Model.py:327-403 | an encoded stream starts with its first command followed by the rest |
| DisplayList.ParseEncoded | extractor/run_extract_Model.py:327-403 | parsing an encoded command stream draws what the commands describe |
| DisplayList.ParseIndicesEncoded | extractor/run_extract_Model.py:314-403 | a display list written from commands is parsed into the faces those commands draw |
| DisplayList.ChannelBits | extractor/run_extract_Model.py:247-252 | each colour format lists four channel widths whose sum fits its entry size |
| DisplayList.Scale | extractor/run_extract_Model.py:259-262 | `int(val * 255 / mask)` is at most 255, 0 for 0 and 255 for the full mask |
| DisplayList.ScaleBound | extractor/run_extract_Model.py:262 | the scaled value of a channel up to its mask is between 0 and 255 |
| DisplayList.Channels | extractor/run_extract_Model.py:256-266 | every channel is at most 255 and an absent channel is 255 |
| DisplayList.ChannelAt | extractor/run_extract_Model.py:256-264 | channel `j` is the field just below the bits of the channels before it, scaled |
| DisplayList.TotalPrefix | extractor/run_extract_Model.py:256-264 | the bits of the first channels never exceed the total |
| DisplayList.ColorOf | extractor/run_extract_Model.py:253-267 | every channel is at most 255, and formats without alpha are opaque |
| DisplayList.ParseColors | extractor/run_extract_Model.py:242-268 | `parse_array_values_color` fails with ValueError exactly for a format outside 0 to 5, and otherwise gives one colour per entry |
| DisplayList.Rgba8Bytes | extractor/run_extract_Model.py:242-268 | in RGBA8 every channel is its own byte |
| DisplayList.ByteChannel | extractor/run_extract_Model.py:262 | an 8-bit channel is the byte itself |
| DisplayList.Rgba4Scale | extractor/run_extract_Model.py:262 | in RGBA4 a channel of value `v` becomes `17·v` |
| TextureMath.ExpandTo8Bits | extractor/helpers/textures.py:3-9 | `expand_to_8_bits` fails with ValueError (a negative shift count) exactly for widths below 3 or above 8 |
| TextureMath.ExpandNibble | extractor/helpers/textures.py:4-5 | a nibble expands to `17·v`, the nibble twice |
| TextureMath.ExpandThree | extractor/helpers/textures.py:6-7 | a 3-bit value expands to `36·v + v / 2` |
| TextureMath.ExpandWide | extractor/helpers/textures.py:8-9 | a value of 5 to 8 bits expands to itself in the top bits with its leading bits again below |
| TextureMath.ExpandValue | extractor/helpers/textures.py:3-9 | the byte an expansion of 3 to 8 bits produces, as plain arithmetic |
| TextureMath.ExpandBounds | extractor/helpers/textures.py:3-9 | for every width from 3 to 8 the expansion is a byte, 0 stays 0, the largest value becomes 255, and the top bits of the byte are the value |
| TextureMath.S3tcBlend | extractor/helpers/textures.py:12-13 | `S3TCBlend`; stated by TextureMath.S3tcIsDxt |
| TextureMath.DxtBlend | extractor/helpers/textures.py:49-50 | `DXTBlend`; stated by TextureMath.DxtBlendBetween and TextureMath.S3tcIsDxt |
| TextureMath.HalfBlend | extractor/helpers/textures.py:15-16 | `halfBlend`; stated by TextureMath.HalfBlendBetween |
| TextureMath.S3tcIsDxt | extractor/helpers/textures.py:12-13 | `S3TCBlend` and `DXTBlend` are the same blend, three eighths of the first value and five eighths of the second |
| TextureMath.DxtBlendBetween | extractor/helpers/textures.py:49-50 | a DXT blend lies between its inputs |
| TextureMath.HalfBlendBetween | extractor/helpers/textures.py:15-16 | `halfBlend` lies between its inputs |
| TextureMath.Halve | extractor/helpers/textures.py:21-24 | one mip step keeps a positive dimension between 1 and itself |
| TextureMath.MipLevels | extractor/helpers/textures.py:20-25 | the texels the `for` loop adds over its halvings; stated by TextureMath.MipLevelsGrow, TextureMath.ComputeMippedTexelCount and TextureMath.ComputeMippedBlockCountDxt1 |
| TextureMath.MippedTexelCount | extractor/helpers/textures.py:18-26 | a chain of at most one level is the full image |
| TextureMath.ComputeMippedTexelCount | extractor/helpers/textures.py:18-26 | `computeMippedTexelCount` is the full image plus each halved level, `mips - 1` of them |
| TextureMath.ComputeMippedBlockCountDxt1 | extractor/helpers/textures.py:28-38 | `computeMippedBlockCountDXT1` is the same count on the image in 4 by 4 blocks |
| TextureMath.MipLevelsGrow | extractor/helpers/textures.py:20-25 | each further level of a non-empty image adds at least one texel |
| TextureMath.MipCountMonotone | extractor/helpers/textures.py:18-26 | more mip levels never count fewer texels, and for a non-empty image strictly more |
| TextureMath.Bswap16 | extractor/helpers/textures.py:40-42 | `bswap16`; stated by TextureMath.Bswap16Value and TextureMath.Bswap16Involution |
| TextureMath.Bswap16Value | extractor/helpers/textures.py:40-42 | `bswap16` puts the low byte on top of the second byte, giving a 16-bit value |
| TextureMath.Bswap16Involution | extractor/helpers/textures.py:40-42 | swapping a 16-bit value twice gives it back |
| TextureMath.MakeRgba | extractor/helpers/textures.py:46-47 | `make_RGBA`; stated by TextureMath.MakeRgbaValue and TextureMath.MakeRgbaBytes |
| TextureMath.MakeRgbaValue | extractor/helpers/textures.py:46-47 | with byte channels the OR-ed word is `a·2^24 + b·2^16 + g·2^8 + r` |
| TextureMath.MakeRgbaBytes | extractor/helpers/textures.py:46-47 | the big-endian bytes of `make_RGBA` are alpha, blue, green, red, and reading them back gives the word |
| TplColor.HasAlpha | extractor/structs/texture/tpl_color.py:12-13 | `has_alpha`: the colour tuple has four entries; stated by TplColor.FromIntBytes |
| TplColor.Ia8FromInt | extractor/structs/texture/tpl_color.py:18-26 | IA8 `from_int` gives an intensity in all three channels and a byte alpha, intensity·256 + alpha being the value |
| TplColor.Ia8ToInt | extractor/structs/texture/tpl_color.py:28-30 | IA8 `to_int` fails with IndexError exactly on a tuple without alpha |
| TplColor.Ia8RoundTrip | extractor/structs/texture/tpl_color.py:18-30 | reading a 16-bit IA8 value and writing it back swaps its two bytes |
| TplColor.R565FromInt | extractor/structs/texture/tpl_color.py:35-38 | `TPLColorR5G6B5.from_int`; stated by TplColor.R565Value, TplColor.R565RoundTrip and TplColor.R565Inverse |
| TplColor.R565ToInt | extractor/structs/texture/tpl_color.py:40-42 | `TPLColorR5G6B5.to_int`; stated by TplColor.R565Pack, TplColor.R565RoundTrip and TplColor.R565Inverse |
| TplColor.R565Value | extractor/structs/texture/tpl_color.py:35-38 | R5G6B5 `from_int` moves bits 11-15, 5-10 and 0-4 to the top of three bytes, without alpha |
| TplColor.Pack565 | extractor/structs/texture/tpl_color.py:42 | the three fields OR-ed into place are `hi·2048 + mid·32 + lo` |
| TplColor.R565Pack | extractor/structs/texture/tpl_color.py:40-42 | R5G6B5 `to_int` of channels with their low bits clear packs their fields |
| TplColor.Split565 | extractor/structs/texture/tpl_color.py:37 | a 16-bit value is its three R5G6B5 fields put together |
| TplColor.Unsplit565 | extractor/structs/texture/tpl_color.py:37 | fields put together come apart again |
| TplColor.R565RoundTrip | extractor/structs/texture/tpl_color.py:32-42 | decoding a 16-bit value and encoding it again gives the value |
| TplColor.R565Inverse | extractor/structs/texture/tpl_color.py:32-42 | a colour R5G6B5 can hold encodes to 16 bits and decodes back to itself |
| TplColor.Rgb5a3FromInt | extractor/structs/texture/tpl_color.py:47-53 | RGB5A3 `from_int` always gives an alpha |
| TplColor.Rgb5a3ToInt | extractor/structs/texture/tpl_color.py:55-60 | RGB5A3 `to_int` fails with IndexError exactly on a tuple without alpha |
| TplColor.TopBit | extractor/structs/texture/tpl_color.py:49 | bit 15 of a 16-bit value is set exactly from 0x8000 up |
| TplColor.Rgb5a3Value | extractor/structs/texture/tpl_color.py:47-53 | with bit 15 set, three 5-bit channels and alpha 255; otherwise three 4-bit channels and alpha from bits 12-14, all bytes |
| TplColor.OpaqueTop | extractor/structs/texture/tpl_color.py:58 | `0x8000 \| r << 7` for a scaled 5-bit red is bit 15 with the red field above bit 10 |
| TplColor.PackOpaque | extractor/structs/texture/tpl_color.py:58 | the opaque layout OR-ed back is `0x8000 + r5·1024 + g5·32 + b5` |
| TplColor.PackTranslucent | extractor/structs/texture/tpl_color.py:60 | the translucent layout OR-ed back is `a3·4096 + r4·256 + g4·16 + b4` |
| TplColor.OpaquePack | extractor/structs/texture/tpl_color.py:57-58 | encoding opaque channels packs their 5-bit fields under bit 15 |
| TplColor.TranslucentPack | extractor/structs/texture/tpl_color.py:59-60 | encoding translucent channels packs their 4-bit fields and the 3-bit alpha |
| TplColor.SplitOpaque | extractor/structs/texture/tpl_color.py:50 | a value from 0x8000 up is bit 15 and its three 5-bit fields |
| TplColor.SplitTranslucent | extractor/structs/texture/tpl_color.py:52 | a value below 0x8000 is its alpha and three 4-bit fields |
| TplColor.Rgb5a3RoundTrip | extractor/structs/texture/tpl_color.py:44-60 | decoding a 16-bit value and encoding it again gives the value: a translucent alpha is never 255, so the encoder picks the decoder's layout |
| TplColor.FromInt | extractor/structs/texture/tpl_color.py:15-53 | `from_int` of the chosen class; stated by TplColor.FromIntBytes |
| TplColor.ToInt | extractor/structs/texture/tpl_color.py:28-60 | `to_int` of the chosen class; stated through `to_bytes` by TplColor.BytesRoundTrip and TplColor.Ia8ToBytesOverflows |
| TplColor.FromIntBytes | extractor/structs/texture/tpl_color.py:12-13 | a decoded 16-bit value has byte channels, and `has_alpha` exactly for IA8 and RGB5A3 |
| TplColor.FromBytes | extractor/structs/texture/tpl_color.py:3-5 | `from_bytes`: the big-endian integer of the bytes, decoded; stated by TplColor.BytesRoundTrip and TplColor.Ia8ToBytesOverflows |
| TplColor.DeclaredSize | extractor/structs/texture/tpl_color.py:15-45 | `SIZE` as each class declares it; stated by TplColor.ToBytesAsWritten and TplColor.Ia8ToBytesOverflows |
| TplColor.ToBytesAsWritten | extractor/structs/texture/tpl_color.py:8-9 | `to_bytes` as written gives `SIZE` bytes when the value fits them |
| TplColor.Ia8ToBytesOverflows | extractor/structs/texture/tpl_color.py:16 | an IA8 colour read from `00 01` cannot be written back in the one byte IA8 declares: OverflowError |
| TplColor.ToBytes | extractor/structs/texture/tpl_color.py:8-9 | `to_bytes` with two bytes per colour gives two bytes |
| TplColor.BytesRoundTrip | extractor/structs/texture/tpl_color.py:3-9 | two bytes decoded and written back: R5G6B5 and RGB5A3 give the bytes again, IA8 gives them swapped |
| Tpl.ParseHeader | extractor/structs/texture/tpl_file.py:39-56 | a texture header needs 32 bytes at the offset; otherwise it is read with two-byte width and height and one-byte formats |
| Tpl.EncodeHeader | extractor/structs/texture/tpl_file.py:21 | the header layout is 32 bytes |
| Tpl.EncodeHeaderHead | extractor/structs/texture/tpl_file.py:21 | image address, palette address, height and width take the first 12 bytes |
| Tpl.EncodeHeaderTail | extractor/structs/texture/tpl_file.py:21 | formats and padding take the last 20 bytes |
| Tpl.HeaderRoundTrip | extractor/structs/texture/tpl_file.py:39-56 | a header written at an offset is read back unchanged by `from_bytes` |
| Tpl.HeaderHeadRead | extractor/structs/texture/tpl_file.py:41-47 | the two addresses, the height and the width are read from bytes 0, 4, 8 and 10 |
| Tpl.HeaderTailRead | extractor/structs/texture/tpl_file.py:45-47 | the format is read from byte 23 and the palette format from byte 26 |
| Tpl.FormatCodesInvert | extractor/constants/textures.py:15 | the reversed format table undoes the table: every name maps back to its code |
| Tpl.IsValid | extractor/structs/texture/tpl_file.py:31-37 | `is_valid`; stated by Tpl.ValidBlockBytes |
| Tpl.BlockBytes | extractor/structs/texture/tpl_file.py:240 | `blocks_to_read` of the C4 and CMPR readers; stated by Tpl.ValidBlockBytes |
| Tpl.ValidBlockBytes | extractor/structs/texture/tpl_file.py:31-37 | `is_valid` holds exactly for a listed format with width and height positive multiples of 4, and then the C4 and CMPR byte count is half a byte per texel and never zero |
| Tpl.WithinTile | extractor/structs/texture/tpl_file.py:69-71 | a texel's position inside its tile is less than the tile's size |
| Tpl.TileInverse | extractor/structs/texture/tpl_file.py:65-73 | within the covered width, the tile-by-tile position of a texel determines the texel |
| Tpl.TileSplit | extractor/structs/texture/tpl_file.py:65-71 | the tile number and the in-tile offset split back into the texel's coordinates |
| Tpl.TilesPerRow | extractor/structs/texture/tpl_file.py:67 | `(width + 7) // 8` tiles cover the width with less than one tile to spare |
| Tpl.NarrowTilesPerRow | extractor/structs/texture/tpl_file.py:223 | `width >> 3` tiles never exceed the width |
| Tpl.NarrowTilesAgree | extractor/structs/texture/tpl_file.py:223 | `width >> 3` equals `(width + 7) // 8` exactly when the width is a multiple of 8 |
| Tpl.LowBits | extractor/structs/texture/tpl_file.py:65-71 | the masks `& 7`, `& 3`, `& 1` and shifts `>> 3`, `>> 2`, `>> 1` are remainders and quotients |
| Tpl.NibbleAddress | extractor/structs/texture/tpl_file.py:65-77 | the I4 byte is half the texel's tile-by-tile position, and the low nibble is taken exactly at odd positions |
| Tpl.NibbleSplit | extractor/structs/texture/tpl_file.py:68-73 | `base + (blockOff >> 1)` with `base = tile << 5` is that half position, and `blockOff & 1` its parity |
| Tpl.ByteAddress | extractor/structs/texture/tpl_file.py:274-282 | the C8 byte is the texel's position in 8x4 tiles |
| Tpl.BlockAddress | extractor/structs/texture/tpl_file.py:343-354 | the CMPR block offset is 8 bytes times the 4x4 block's position in 2x2 groups |
| Tpl.Nibble | extractor/structs/texture/tpl_file.py:74-77 | `& 0x0f` is the low nibble and `(b >> 4) & 0x0f` the high one |
| Tpl.I4Texel | extractor/structs/texture/tpl_file.py:64-81 | an I4 texel is the gray of its nibble scaled to 8 bits, opaque; IndexError exactly past the end of the image bytes |
| Tpl.Intensity | extractor/structs/texture/tpl_file.py:80 | `expand_to_8_bits(val, 4)` is `17 * val` |
| Tpl.I8Texel | extractor/structs/texture/tpl_file.py:119-125 | an I8 texel is the gray of its byte without a palette and the palette entry otherwise; IndexError exactly past the image or the palette |
| Tpl.Ia8Texel | extractor/structs/texture/tpl_file.py:187-193 | an IA8 texel is intensity from the high byte and alpha from the low byte of its halfword; struct.error exactly when fewer than two bytes remain |
| Tpl.Ia8Halves | extractor/structs/texture/tpl_file.py:189-191 | `texel >> 8` and `texel & 0xFF` of a big-endian halfword are its two bytes |
| Tpl.C4Texel | extractor/structs/texture/tpl_file.py:220-235 | a C4 texel is the palette entry of its nibble, addressed with `width >> 3` tiles per row; IndexError exactly past the image or the palette |
| Tpl.C4TexelPadded | extractor/structs/texture/tpl_file.py:220-235 | the C4 reader with `(width + 7) // 8` tiles per row reads the palette entry of the nibble at the padded address; IndexError exactly past the image or the palette |
| Tpl.C8Texel | extractor/structs/texture/tpl_file.py:273-284 | a C8 texel is the palette entry of its byte, addressed with `width >> 3` tiles per row; IndexError exactly past the image or the palette |
| Tpl.C8TexelPadded | extractor/structs/texture/tpl_file.py:273-284 | the C8 reader with `(width + 7) // 8` tiles per row reads the palette entry of the byte at the padded address; IndexError exactly past the image or the palette |
| Tpl.Greater | extractor/structs/texture/tpl_file.py:369 | Python's `>` on two colour tuples; stated by Tpl.GreaterIsNumeric and Tpl.EndpointOrder |
| Tpl.GreaterIsNumeric | extractor/structs/texture/tpl_file.py:369 | comparing two decoded R5G6B5 tuples is comparing the 16-bit values |
| Tpl.LexNumeric | extractor/structs/texture/tpl_file.py:369 | lexicographic order of the three fields is numeric order of the packed value |
| Tpl.CmprBlock | extractor/structs/texture/tpl_file.py:343-356 | the CMPR block slice holds the source bytes from the block's address: 8 of them, or what is left of the source, or none past its end |
| Tpl.EndpointOrder | extractor/structs/texture/tpl_file.py:358-369 | the first endpoint compares greater exactly when the block's first halfword is larger |
| Tpl.CmprCode | extractor/structs/texture/tpl_file.py:361-367 | the texel's colour code is 2 bits |
| Tpl.CmprDecode | extractor/structs/texture/tpl_file.py:358-384 | a CMPR texel of a block is endpoint 1 for code 0, endpoint 2 for code 1, channels between the endpoints otherwise, transparent exactly for code 3 in three-colour mode; IndexError exactly when the block has no byte for the texel's row |
| Tpl.CmprTexel | extractor/structs/texture/tpl_file.py:342-384 | a CMPR texel is the decoding of the block found with `width >> 3` tiles per row, with the error exactly when that block has no byte for the texel's row |
| Tpl.CmprTexelPadded | extractor/structs/texture/tpl_file.py:342-384 | the CMPR reader with `(width + 7) // 8` tiles per row decodes the block at the padded address |
| Tpl.CmprDecodeRow | extractor/structs/texture/tpl_file.py:358-367 | a CMPR texel depends only on its block and its column and row within the block |
| Tpl.CmprSelector | extractor/structs/texture/tpl_file.py:364-369 | the shifted and masked code byte is the row's code for the texel, lifted by 4 in three-colour mode |
| Tpl.CmprColorProperties | extractor/structs/texture/tpl_file.py:371-382 | each selector below 8 gives an opaque colour between the endpoints, except selector 7, which is transparent; 0 and 4 give endpoint 1 and 1 and 5 give endpoint 2 |
| Tpl.Blend | extractor/structs/texture/tpl_file.py:323-324 | `dxt_blend`; stated by Tpl.BlendChannels, and through the colour table by Tpl.CmprColorProperties |
| Tpl.BlendChannels | extractor/structs/texture/tpl_file.py:323-324 | `dxt_blend` of two endpoints, either way round, stays between them |
| Tpl.Average | extractor/structs/texture/tpl_file.py:380-382 | the averaged channels of three-colour mode; stated by Tpl.AverageChannels, and through the colour table by Tpl.CmprColorProperties |
| Tpl.AverageChannels | extractor/structs/texture/tpl_file.py:380-382 | the channel averages stay between the endpoints |
| Tpl.PaletteWords | extractor/structs/texture/tpl_file.py:243-244 | the palette halfwords are big-endian words of the source from the palette address, 0 past its end |
| Tpl.PaletteWord | extractor/structs/texture/tpl_file.py:244 | each halfword slice of the palette slice reads the source word at its position, or 0 past the end |
| Tpl.PaletteKind | extractor/structs/texture/tpl_file.py:246-256 | palette format 0 picks IA8, 1 picks R5G6B5 drawn as RGB, 2 picks RGB5A3; any other fails the assertion |
| Tpl.C4Palette | extractor/structs/texture/tpl_file.py:243-259 | the C4 palette has 16 byte colours, with alpha exactly when drawn as RGBA; AssertionError exactly for a palette format above 2 |
| Tpl.C8Palette | extractor/structs/texture/tpl_file.py:292-307 | the C8 palette has 256 RGB5A3 colours, all with alpha |
| Tpl.I8Palette | extractor/structs/texture/tpl_file.py:132-138 | the I8 reader has no palette exactly when the palette address is 0, and 256 colours otherwise |
| Tpl.C4PaletteCovers | extractor/structs/texture/tpl_file.py:232-235 | with the palette the C4 reader builds, a read fails only past the end of the image |
| Tpl.C8PaletteCovers | extractor/structs/texture/tpl_file.py:282-284 | with the palette the C8 reader builds, a read fails only past the end of the image |
| Tpl.NarrowTilesOverlap | extractor/structs/texture/tpl_file.py:220-235 | as written, for a valid width 4 more than a multiple of 8, the C4 texel `(width - 4 + s, t)` inside the width equals the texel `(s, t + 8)`, for every image and palette |
| Tpl.C8TilesOverlap | extractor/structs/texture/tpl_file.py:273-284 | as written, for such a width the C8 texel `(width - 4 + s, t)` equals the texel `(s, t + 4)`, for every image and palette |
| Tpl.CmprTilesOverlap | extractor/structs/texture/tpl_file.py:342-384 | as written, for such a width the CMPR texel `(width - 4 + s, t)` equals the texel `(s, t + 8)`, for every image |
| Tpl.PaddedTilesDistinct | extractor/structs/texture/tpl_file.py:65-73 | with `(width + 7) // 8` tiles per row, distinct texels inside the width never share a nibble, a C8 byte or a CMPR code |
| Tpl.BlockDistinct | extractor/structs/texture/tpl_file.py:343-367 | distinct texels within the covered width never share a CMPR block and code position |

## Left out

- File, console and JSON I/O are not modelled. That covers reading archives and rel files, `FileCache`, writing the catalogue, logs, progress bars and the `main` loops of the extract scripts. Buffers are parameters.
- The rel selection of `discover_files` (`file_discovery.py:119-164`) is not modelled. It scans the aaaa archive every 0x800 bytes, matches the hits against the main-dol search, asserts at most one match per offset, and decompresses the matches. The model takes the selected `rels` and their `buffers` as given.
- Image output is not modelled: the `parse_source` methods, PIL images, OBJ, X3D and MTL export. The texel readers are modelled; the loops that call them over an image and draw the result are not.
- Floats are kept as their raw 4-byte words. That covers vertex coordinates, bounding boxes, lighting brightness and animation times. `float_from_fixedpoint` and `parse_array_values` are floating point.
- `TPLFileIA4.get_pixel` is not modelled: it shifts the float `(width + 7) / 8`, so it raises TypeError on every input.
- `ArchiveDecompressor.get_compression_instructions` is not modelled. It lists the tokens that `Codec.DecodeFrom` reads, as `CompressionData` records, and nothing else depends on it.
- `__largest_sublist_cachedsearch` and `__largest_sublist_search` are not modelled: one is broken (it calls `append` on a set) and the other is unused.
- The bone-tree traversal of the actor script is not modelled. It prints, reads CTRL floats and terminates only on acyclic pointer data.
- The string form of records (`__str__`, `__repr__`) is not modelled, nor are the re-export modules.
- Codec.TokenRemains: a field that fails with a negative shift (a width more than 32 bits beyond the buffered bits) leaves the source's reader with its word fetched and a negative bit count, which the reader type cannot hold. The model leaves the reader before that field instead. The other errors leave exactly the source's state.
- Python's negative slice indices are not modelled in general. Two slices in the core have negative bounds:
  - `sublist[:-1]` (`tbd.py:305`) drops the last byte. `Compressor.ShrinkSearch` shortens the needle by one instead.
  - `ad_gc_search[ind-8:ind]` (`file_discovery.py:249`) has a negative start for a marker less than 8 bytes after the search start. Python then unpacks a slice shorter than 8 bytes and raises struct.error. The model gives the short-buffer error there (`Discovery.FormsFrom`, stated by `Discovery.FormsFromIs`).
- Python sets are not modelled as such. A set of search results is iterated in an order Python leaves unspecified, so discovery takes that order as a parameter `order`. The lemmas hold for every order that lists each set exactly once.
- Compressor.CompressRoundTrip: stated for look-back and repetition widths up to 32 that are not both 0. Widths of 0 and 0 mean stored data, which the compressor does not produce. No bound of 16 is needed.
- Discovery.ClaimAllCovers: requires every claimed range to be non-empty. A zero-size candidate gives an empty range, which leaves the range list non-canonical.
- Discovery.SeedIs: requires non-empty ranges for the known raw files, for the same reason.
- Discovery.AcceptWhereClaims: requires non-empty candidate ranges, for the same reason.
- Discovery.AcceptFreeCovers: requires non-empty candidate ranges, for the same reason.
- Discovery.AcceptFreeApart: requires non-empty candidate ranges, for the same reason.
- Discovery.AcceptFreeSkips: requires non-empty candidate ranges, for the same reason.
- Ranges.RemoveRangeIsDifference: stated for a removed range with start ≤ stop. For a reversed range, the "overlap middle" branch emits points outside the old range.
- Ranges.ContainsIsCovers: stated for sorted lists of disjoint, non-touching ranges, which are the lists `add_range` builds.
- TplColor.Ia8RoundTrip: states the source's behaviour, a byte swap, rather than an identity. `from_int` takes intensity from the high byte, while `to_int` puts alpha there.
- Tpl.CmprTexel: the final `(0, 0, 0, 0)` branch of the CMPR reader cannot be reached, because a selector is below 8. It is kept in `Tpl.CmprColor` for selectors from 8 up.

## Findings

| source | as written | input that shows it | evidently intended | confidence | as-written member | corrected member |
|---|---|---|---|---|---|---|
| extractor/structs/compression/rolling.py:106-110 | a bounded slice `view[a:b:s]` starts at `ms + a` instead of `ms + a * mstep`, ends `(b - a) * mstep` later, and steps by `s * mstep` | output `[0, 1, 2, 3]`, `d[::2][1:2]` gives `[1]` | element 1 of the view `[0, 2]`, that is `[2]` | not executed | Rolling.BoundedViewSliceMisreads | Rolling.ViewSliceComposes |
| extractor/structs/compression/rolling.py:114 | an open slice `view[a:]` starts at `ms + a * s` rather than `ms + a * mstep` | output `[0, 1, 2, 3]`, `d[::2][1:]` gives the view of `[1, 3]` | the view of `[2]` | not executed | Rolling.OpenViewSliceMisreads | Rolling.TailComposes |
| extractor/structs/compression/compression_structs.py:245 | the binary search returns False as soon as the index it probes is the last one (`ind == len - 1`), so with exactly two ranges the first is never tested; the probe loop of `discover_files` skips with this test, so it can probe again an offset the first of two ranges holds (`Discovery.ProbeFromSound`) | ranges `[0, 10)` and `[20, 30)`: `5 in ranges` is False | True: 5 is in the first range | not executed | Ranges.ContainsMissesFirstOfTwo | Ranges.ContainsIsCovers |
| extractor/structs/compression/compression_structs.py:211-226 | `remove_range` has no branch for a stored range disjoint from the removed one, so that range is dropped | removing `[20, 30)` from `[[0, 10)]` leaves `[]` | `[[0, 10)]`, unchanged | not executed | Ranges.RemoveRangeDropsApart | Ranges.RemoveRangeIsDifference |
| extractor/structs/compression/compression_structs.py:269 | the scan loop runs while `ind > 0`, so a marker at index 0 of the remaining bytes ends it | a 16-byte buffer holding one (11, 4) entry at offset 0: nothing found | the entry at offset 0 is found (`ind >= 0`) | not executed | Fingerprint.HitsMissStartExample | Fingerprint.SearchCompressionIs |
| extractor/structs/texture/tpl_color.py:16 | `TPLColorIA8.SIZE = 1`, but IA8 colours are 16 bits, so `to_bytes` overflows | the colour read from `00 01`: OverflowError | two bytes | not executed | TplColor.Ia8ToBytesOverflows | TplColor.BytesRoundTrip |
| extractor/structs/texture/tpl_file.py:223 | the C4 reader counts `width >> 3` tiles per row, dropping a partly filled last tile | a valid width 12 (4 more than a multiple of 8), s < 4: C4 texel `(8 + s, t)` is texel `(s, t + 8)` | `(width + 7) // 8` tiles, as the I4 reader counts (`Tpl.C4TexelPadded`) | not executed | Tpl.NarrowTilesOverlap | Tpl.PaddedTilesDistinct |
| extractor/structs/texture/tpl_file.py:276 | the C8 reader counts `width >> 3` tiles per row | a valid width 12, s < 4: C8 texel `(8 + s, t)` is texel `(s, t + 4)` | `(width + 7) // 8` tiles (`Tpl.C8TexelPadded`) | not executed | Tpl.C8TilesOverlap | Tpl.PaddedTilesDistinct |
| extractor/structs/texture/tpl_file.py:348 | the CMPR reader counts `width >> 3` tiles per row | a valid width 12, s < 4: CMPR texel `(8 + s, t)` is texel `(s, t + 8)` | `(width + 7) // 8` tiles (`Tpl.CmprTexelPadded`) | not executed | Tpl.CmprTilesOverlap | Tpl.PaddedTilesDistinct |
