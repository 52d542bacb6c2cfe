# SQLite on-disk format: a verified model of limbo's encoders and decoders

This project models the pure encode/decode core of limbo's SQLite storage layer,
`core/storage/sqlite3_ondisk.rs`, and proves its properties in Dafny 4.11. The
core covers the byte-level formats of the SQLite Database File Format:

- **varints** (`varint.dfy`, module `Varint`): `read_varint`, `write_varint` and
  `write_varint_to_vec`, the 1 to 9 byte big-endian base-128 integers.
- **record format** (`record.dfy`, module `Record`): the serial-type helpers
  (`SerialTypeExt`), `validate_serial_type`, `read_value` and `read_record`.
- **database header** (`header.dfy`, module `DbHeader`): the 100-byte header on
  page 1, `write_header_to_buf`, `finish_read_database_header` and the default
  header.
- **b-tree pages and cells** (`btree.dfy`, module `BTree`):
  - the page header: `PageType::try_from`, `page_type`, `is_leaf`, `header_size`,
    `rightmost_pointer` and `cell_count`;
  - cells: `read_btree_cell`, `read_payload`, `payload_overflows` and
    `cell_get_raw_region`.
- **write-ahead log** (`wal.dfy`, module `Wal`):
  - the 32-byte log header and the 24-byte frame header;
  - `checksum_wal`;
  - the frame layout and checksum chaining of `begin_write_wal_frame`.
- **shared pieces**:
  - `bytes.dfy` (module `Bytes`): fixed-width integers, big-endian and
    two's-complement encodings, and `read_u32`;
  - `wrappers.dfy` (module `Wrappers`): `Option`, `Result`, and the two error
    kinds.

### How errors are represented

The engine fails in two ways, and the model keeps them apart:

- `Failure(Corrupt)` stands for a `LimboError::Corrupt` the source returns.
- `Failure(Panic)` stands for an abort: a failed `assert!`, an out-of-range index or
  slice, an `unwrap` of an error, or an arithmetic overflow.

The contracts of `ReadVarint`, `ValidateSerialType`, `ReadValue`, `ReadValues`,
`PageTypeFromByte`, `ReadWalHeader`, `ReadFrameHeader`, `ChecksumWal` and
`WriteWalFrame` say exactly which inputs lead to which failure. `ReadRecord` states
its failures step by step: the header-size varint, the assertion on the header size,
the header loop, and then the body loop, which fails exactly when the bodies do not
fit. The contracts of `ReadSerialTypes` and `ReadBTreeCell` describe only their
successful results.

### Reference definitions

Every decoder has an independent partner definition: the encoder that it inverts,
such as `EncodeVarint`, `EncodeValue`, `EncodeRecord`, `HeaderBytes`, `EncodeCell`,
`WriteWalHeader` and `WriteFrameHeader`. For the WAL checksum, the partner is the
fold `Checksum`. Round-trip lemmas connect the decoders to these partners.

### How cells are decoded

`read_btree_cell` and `cell_get_raw_region` have one branch per page type, and each
branch reads a fixed sequence of fields. The model states each such sequence once,
as `Layout(t)`:

- left child pointer (interior pages);
- payload size varint (every page type except table-interior);
- rowid varint (table pages);
- local payload and overflow pointer.

`ReadFields` and `MeasureFields` walk that list. They perform the same reads, in the
same order, with the same failure points as the source's branches. `LayoutOfCell`
proves, for each page type, that storing a cell field by field gives exactly the
per-type `EncodeCell`, so each round trip ties the walk back to the per-type format.

## Model

| member | source | states |
|---|---|---|
| Varint.ReadVarint | core/storage/sqlite3_ondisk.rs:1267-1284 | fails with Corrupt exactly when the input ends, within the first eight bytes, on continuation bytes; aborts exactly when the first eight bytes all continue and there is no ninth byte; on success the length (1 to 9) is the position of the first byte with a clear top bit, or 9 |
| Varint.ReadFromCorrupt | core/storage/sqlite3_ondisk.rs:1269-1280 | from any iteration, the decoding loop reports Corrupt if and only if the buffer ends, before byte 8, on a run of continuation bytes |
| Varint.ReadFromPanic | core/storage/sqlite3_ondisk.rs:1281-1283 | from any iteration, the loop aborts if and only if eight continuation bytes are the entire buffer (the unchecked read of the ninth byte) |
| Varint.ReadFromSuccess | core/storage/sqlite3_ondisk.rs:1269-1283 | a successful read stops at the first byte with a clear top bit, or after the ninth byte, and every earlier byte is a continuation byte |
| Varint.EncodeVarint | core/storage/sqlite3_ondisk.rs:1286-1323 | the encoding takes 1 to 9 bytes; it takes 1 byte iff v ≤ 0x7f, 2 bytes iff 0x7f < v ≤ 0x3fff, and 9 bytes iff the top byte of v is non-zero; any shorter length n is the least with v < 128^n |
| Varint.EncodedLength | core/storage/sqlite3_ondisk.rs:1286-1323 | the length of the encoding falls in the classes 0x7f, 0x3fff, …, 0xff_ffff_ffff_ffff of the value (1 to 9 bytes) |
| Varint.ReadEncoded | core/storage/sqlite3_ondisk.rs:1267-1323 | round trip: read_varint of write_varint's bytes, followed by anything, gives back the value and the number of bytes written |
| Varint.WriteVarint | core/storage/sqlite3_ondisk.rs:1286-1323 | writing into a buffer with enough room puts exactly the encoding of v (so its length classes) in the first n bytes, changes nothing after them, and read_varint of the result is (v, n) |
| Varint.WriteVarintToVec | core/storage/sqlite3_ondisk.rs:1325-1329 | appends 1 to 9 bytes, keeps the existing payload as a prefix, and the appended bytes read back as v |
| Record.BlobSize | core/storage/sqlite3_ondisk.rs:1025-1036 | a blob serial type 12 + 2n holds exactly n bytes |
| Record.StringSize | core/storage/sqlite3_ondisk.rs:1029-1041 | a text serial type 13 + 2n holds exactly n bytes |
| Record.ValidateSerialType | core/storage/sqlite3_ondisk.rs:1043-1054 | accepts a serial type iff it is neither 10 nor 11, returning it unchanged; the reserved codes are Corrupt |
| Record.ReadValue | core/storage/sqlite3_ondisk.rs:1129-1264 | fails, always with Corrupt, exactly when the serial type is reserved or the buffer is shorter than the column width; otherwise consumes exactly that width and returns a value of the serial type's kind |
| Record.ReadInteger | core/storage/sqlite3_ondisk.rs:1134-1203 | integer serial types 1 to 6 need 1, 2, 3, 4, 6 or 8 bytes and yield the two's-complement value of exactly those bytes |
| Record.Widened | core/storage/sqlite3_ondisk.rs:1152-1191 | prefixing sign-extension bytes to a 24-bit or 48-bit body keeps its two's-complement value |
| Bytes.SignExtend | core/storage/sqlite3_ondisk.rs:1156-1158 | prefixing the sign-extension byte (0 or 255, chosen by buf[0] ≤ 127) leaves the signed big-endian value unchanged |
| Record.ReadValueRoundTrip | core/storage/sqlite3_ondisk.rs:1129-1264 | every value storable under a serial type, over the full i8 to i64 ranges and including the constants 0 and 1, floats, blobs and text, reads back from its encoding with anything after it |
| Record.ReadValueExact | core/storage/sqlite3_ondisk.rs:1129-1264 | whatever read_value accepts is exactly the encoding of the value it returns, so no two bodies decode to the same value |
| Record.ReadSerialTypes | core/storage/sqlite3_ondisk.rs:1099-1106 | the header loop stays within the header size, yields at most one type per header byte, and yields only valid serial types |
| Record.ReadValues | core/storage/sqlite3_ondisk.rs:1108-1121 | the body loop yields one value per serial type, each of that type's kind; it never aborts, and for valid serial types it fails (Corrupt) exactly when the sum of their body sizes exceeds the bytes left |
| Record.ReadRecord | core/storage/sqlite3_ondisk.rs:1085-1124 | a failing header-size varint fails the record the same way; a header size below its own varint's length aborts; a failing header loop fails the record the same way; otherwise the record decodes exactly when the header size plus the body sizes fit in the payload; a decoded record never has more columns than its payload has bytes |
| Record.ReadRecordRoundTrip | core/storage/sqlite3_ondisk.rs:1085-1124 | a record whose header size counts its own varint decodes to exactly its column values, whatever bytes follow it |
| Bytes.ReadU32 | core/storage/sqlite3_ondisk.rs:1585-1587 | the result is the number whose 4-byte big-endian image is the bytes at pos |
| DbHeader.WriteHeaderToBuf | core/storage/sqlite3_ondisk.rs:340-366 | the header replaces the first 100 bytes, which begin with the magic string, and every byte at index 100 or later is unchanged |
| DbHeader.CacheSizeOf | core/storage/sqlite3_ondisk.rs:284-287 | a stored cache size of zero is reported as a non-zero default; any other value is kept |
| DbHeader.ReadDatabaseHeader | core/storage/sqlite3_ondisk.rs:263-297 | the magic and reserved bytes are copied from offsets 0..16 and 72..92, and the reported cache size is never zero |
| DbHeader.ReadWrittenHeader | core/storage/sqlite3_ondisk.rs:263-366 | header round trip: reading a written header gives every field back, except that a zero cache size reads as -2000 |
| DbHeader.WriteReadHeader | core/storage/sqlite3_ondisk.rs:263-366 | the converse: writing back a header just read reproduces the buffer whenever the stored cache size is not zero |
| DbHeader.ZeroCacheSizeReadsDefault | core/storage/sqlite3_ondisk.rs:284-287 | a stored cache size of zero reads as -2000 |
| DbHeader.DefaultHeaderRoundTrips | core/storage/sqlite3_ondisk.rs:216-244 | the default header is one the file format admits (magic, page size 4096, payload fractions 64/32/32, schema format 4, UTF-8), and it survives a write and a read |
| BTree.PageTypeFromByte | core/storage/sqlite3_ondisk.rs:368-389 | decodes exactly the bytes 2, 5, 10 and 13, each to the page type stored as that byte; every other byte is Corrupt |
| BTree.PageTypeRoundTrip | core/storage/sqlite3_ondisk.rs:368-389 | decoding a page type's byte gives that page type back |
| BTree.PageTypeOf | core/storage/sqlite3_ondisk.rs:416-418 | the page type is the one whose byte is stored at the header's first byte |
| BTree.IsLeaf | core/storage/sqlite3_ondisk.rs:671-678 | true exactly when the type byte has the leaf bit (types 10 and 13) |
| BTree.HeaderSize | core/storage/sqlite3_ondisk.rs:529-536 | 8 bytes on leaf pages, 12 on interior pages |
| BTree.RightmostPointer | core/storage/sqlite3_ondisk.rs:544-551 | present exactly on interior pages, where it is the big-endian word at header bytes 8..12 |
| BTree.HeaderAccessorsAgree | core/storage/sqlite3_ondisk.rs:529-551 | a page has the 12-byte header iff it is not a leaf, iff it has a right-most pointer |
| BTree.CellCount | core/storage/sqlite3_ondisk.rs:497-499 | the cell count is the big-endian u16 at header bytes 3..5 |
| BTree.PayloadOverflows | core/storage/sqlite3_ondisk.rs:1513-1529 | overflows iff the payload exceeds maxLocal; a payload that fits keeps 0; an overflowing one keeps at least minLocal + 4 bytes and, when minLocal ≤ maxLocal, at most maxLocal + 4 |
| BTree.LocalPartChoice | core/storage/sqlite3_ondisk.rs:1523-1528 | the local size chosen is either one that fills the overflow pages exactly and fits under maxLocal, or minLocal when no such size fits |
| BTree.OverflowLeavesRemainder | core/storage/sqlite3_ondisk.rs:1513-1529 | under the thresholds SQLite derives, an overflowing payload is longer than the part kept on the page, so the overflow chain is never empty |
| BTree.ReadPayload | core/storage/sqlite3_ondisk.rs:935-951 | a payload that fits is the first payloadSize bytes, with no overflow page; otherwise the local part plus the 4-byte big-endian overflow page number make up the whole slice |
| BTree.ReadPayloadOfSplit | core/storage/sqlite3_ondisk.rs:935-951 | a local part followed by an overflow pointer reads back as that part and that pointer |
| BTree.ReadBTreeCell | core/storage/sqlite3_ondisk.rs:851-930 | a decoded cell is always of the kind the page type calls for |
| BTree.LayoutOfCell | core/storage/sqlite3_ondisk.rs:859-929 | for each page type, the field sequence the decoder follows produces exactly the per-type cell bytes, and merging the decoded fields rebuilds the cell |
| BTree.ReadEncodedCell | core/storage/sqlite3_ondisk.rs:851-951 | cell round trip: a cell stored consistently with payload_overflows decodes to exactly that cell, at any position and with anything after it |
| BTree.CellLength | core/storage/sqlite3_ondisk.rs:605-669 | the corrected cell measure fails only by aborting |
| BTree.CellLengthOfEncoded | core/storage/sqlite3_ondisk.rs:619-667 | the corrected measure of a consistently stored cell is exactly its stored length |
| BTree.CellLengthAsWritten | core/storage/sqlite3_ondisk.rs:619-667 | the as-written measure succeeds exactly when the corrected one does, and is at least 4 on index pages |
| BTree.CellLengthAsWrittenOverstates | core/storage/sqlite3_ondisk.rs:620-650 | for every consistently stored index cell, the as-written measure is the stored length plus 4 |
| BTree.IndexLeafRegionExample | core/storage/sqlite3_ondisk.rs:638-650 | the index-leaf cell with payload 1, 2, 3 is stored in 4 bytes, which the as-written code measures as 8 and the corrected code as 4 |
| BTree.CellGetRawRegion | core/storage/sqlite3_ondisk.rs:605-669 | on success the page has a valid type, idx is below the cell count, and the start is the big-endian entry idx of the cell pointer array after the page header |
| BTree.CellGetRawRegionAsWritten | core/storage/sqlite3_ondisk.rs:605-669 | succeeds exactly when the corrected version does, with the same start |
| BTree.RawRegionIsCell | core/storage/sqlite3_ondisk.rs:605-669 | the corrected region of a consistently stored cell starts where its pointer says and covers exactly its bytes |
| BTree.RawRegionAsWrittenOverruns | core/storage/sqlite3_ondisk.rs:619-650 | for an index cell, the region the source computes runs 4 bytes past the cell |
| Wal.ReadWalHeader | core/storage/sqlite3_ondisk.rs:1346-1362 | parsing fails, by aborting, exactly when fewer than 32 bytes are available |
| Wal.WalHeaderRoundTrip | core/storage/sqlite3_ondisk.rs:1482-1489 | the eight big-endian words written for a log header read back as that header, whatever follows them |
| Wal.WalHeaderOfBytes | core/storage/sqlite3_ondisk.rs:1346-1362 | every 32-byte prefix is the image of the header parsed from it, so parsing loses nothing |
| Wal.FrameHeaderRoundTrip | core/storage/sqlite3_ondisk.rs:1423-1449 | the six big-endian words of a frame header read back as written |
| Wal.LoopWordOrder | core/storage/sqlite3_ondisk.rs:1559-1573 | on either host byte order, the loop reads big-endian words exactly when native_endian matches the host's order, and little-endian words otherwise |
| Wal.ChecksumWal | core/storage/sqlite3_ondisk.rs:1549-1577 | aborts exactly when the length is not a multiple of 8; otherwise returns the wrapping (mod 2^32) Fibonacci-style fold over the 8-byte chunks, and returns the input unchanged for an empty buffer |
| Wal.ChecksumAppend | core/storage/sqlite3_ondisk.rs:1549-1577 | checksum(a ++ b, s) == checksum(b, checksum(a, s)) whenever the length of a is a multiple of 8 |
| Wal.ChecksumOrderFollowsMagic | core/storage/sqlite3_ondisk.rs:1436-1437 | whatever the host, the word the checksum loop reads under the writer's `use_native_endian` flag is the big-endian word exactly when the magic number is odd (0x377f0683), and the little-endian one for 0x377f0682 |
| Wal.WriteWalFrame | core/storage/sqlite3_ondisk.rs:1392-1473 | a frame is 24 header bytes followed by the unchanged page image; the writer aborts exactly when the page is shorter than the 4096 bytes it zero-fills and checksums |
| Wal.WalFrameSum | core/storage/sqlite3_ondisk.rs:1436-1446 | the returned checksum covers the frame's first 8 bytes followed by the first 4096 bytes of the page, continued from the previous frame's checksum, in the byte order the magic selects |
| Wal.WalFrameHeaderFields | core/storage/sqlite3_ondisk.rs:1403-1449 | the frame header holds the page number truncated to 32 bits, the database size, the log header's two salts, and the returned checksum |

## Left out

- The command-line tool (`cli/`): it is not part of the on-disk format.
- Asynchronous I/O: `begin_read_database_header`, `begin_write_database_header`,
  `begin_read_page`, `finish_read_page`, `begin_write_btree_page`, `begin_sync`,
  `begin_read_wal_header`, `begin_read_wal_frame` and the file writes of
  `begin_write_wal_frame` and `begin_write_wal_header`.
  - They only move buffers to and from a file through completions.
  - The byte layouts they build or parse are modelled: `WriteWalFrame`,
    `WriteWalHeader`, `ReadWalHeader` and `ReadDatabaseHeader`.
- Unsafe pointer code (`as_ptr`, `rightmost_pointer_raw`, `cell_get`'s transmute of
  the page lifetime, `WalHeader::as_bytes`): a page is a plain byte sequence in the
  model.
- `SmallVec`: `read_record` stores the first 64 serial types inline and the rest in
  a vector. The model uses one sequence with the same order.
- Floating point: a `REAL` column is kept as its 8 raw bytes, with no IEEE-754
  semantics.
- `debug_print_freelist`: it only prints.
- Error messages: the model keeps the error kind and drops the message text.
- Arithmetic overflow: `usize` arithmetic that overflows in `payload_overflows` and
  `cell_get_raw_region` is taken to abort, as in a debug build. A release build
  would wrap.
- Host byte order: `cfg!(target_endian)` and `from_ne_bytes` are modelled with a
  `hostBig` parameter.
- DbHeader.WriteHeaderToBuf: requires a buffer of at least 100 bytes. The source would abort
  on a shorter one, and its callers always pass a page buffer.
- DbHeader.ReadDatabaseHeader: likewise requires at least 100 bytes.
- Varint.WriteVarint: requires room for the encoding. The source writes into a short
  buffer unchecked and would abort, but its only caller, `write_varint_to_vec`,
  passes a 9-byte buffer.
- BTree.RightmostPointer: requires the 12-byte interior header to lie inside the
  page. The source would abort on a shorter buffer; a page buffer always has room.
- BTree.CellCount: requires header bytes 3..5 to lie inside the page, for the same
  reason.
- Bytes.ReadU32: requires four bytes at the position. The source's slice would abort
  otherwise; its callers read fixed offsets inside buffers of known size.
- BTree.PayloadOverflows: requires the inputs on which the source's subtraction and
  remainder are defined. `CheckedPayloadOverflows` gives the aborting cases, and
  cell decoding uses that.
- BTree.ReadEncodedCell: proved under thresholds with a usable size above 8 and
  `minLocal + 4 <= maxLocal`. SQLite always derives thresholds like these. With
  smaller gaps, `read_payload` can take an overflowing cell for a local one.
- BTree.PageTypeOf: defined only for pages with a valid type byte. The source
  unwraps the conversion, and every accessor built on it inherits the abort.

## Findings

| source | as written | input that shows it | evidently intended | confidence | as-written member | corrected member |
|---|---|---|---|---|---|---|
| core/storage/sqlite3_ondisk.rs:628-650 | both index branches of `cell_get_raw_region` add a trailing `+ 4` to the cell length | an index-leaf cell with payload 1, 2, 3 is stored as the 4 bytes 3, 1, 2, 3 (thresholds 1002/489, usable size 4096); the computed length is 8 | index cells have no field after the payload, so the length is the payload size varint plus the local payload (plus 4 for the left child on interior pages) | medium, not executed | BTree.CellLengthAsWritten, BTree.CellGetRawRegionAsWritten (shown by BTree.IndexLeafRegionExample and BTree.RawRegionAsWrittenOverruns) | BTree.CellLength, BTree.CellGetRawRegion (proved by BTree.CellLengthOfEncoded and BTree.RawRegionIsCell) |
