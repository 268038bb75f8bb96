# Keyring fix script, modelled in Dafny

`fix_scripts/keyring/fix_keyring.py` rewrites a MySQL `keyring_file`. It
renames the unversioned key id `percona_binlog` to `percona_binlog:0` when
`-f` is given, and re-encodes every record so that the lengths, the pod size
and the padding stay consistent. This project models the script's core in
Dafny and proves what it does:

- the `Key` record codec: `pod_size`, `write`, `read`, `read_padding` and
  `write_padding`;
- the header reader `read_keyring_header`;
- the load loop and the write loop of `main`.

The model has six modules, one file each:

| file | module | what it holds |
|---|---|---|
| `seqs.dfy` | `Sequences` | generic facts about slicing and concatenation; `Chain`, pieces laid end to end at running offsets |
| `bytes.dfy` | `Bytes` | bytes, the 64-bit little-endian words of `struct` code `Q`, `Pack`/`Unpack` and their round trips |
| `key_format.dfy` | `KeyFormat` | one record: the pod size, the padding, `EncodeRecord` (what `Key.write` appends at an offset) and `DecodeRecord` (what `Key.read` returns and where it stops) |
| `keyring_format.dfy` | `KeyringFormat` | the whole file: the header, the rename, runs of records, the load loop as `DecodeAll`, and `Rewritten`, the file `main` writes |
| `streams.dfy` | `Streams` | the two file objects: a `Reader` with a position, and a `Writer` whose `tell()` is the length of its output |
| `fix_keyring.dfy` | `FixKeyring` | the script itself: class `Key`, whose fields the write loop updates in place; `ReadKeyringHeader`; `LoadKeys`; `WriteKeys`; and `FixKeyringFile`, `main` from the opened files on |

The methods mirror the script statement by statement, loops included. Each
method is proved against a function of `KeyFormat` or `KeyringFormat`.
`FixKeyringFile` ends with `output == Rewritten(input, fix, limit)`. The properties
of the format are lemmas about those functions:

- the round trip of one record and of a run of records;
- alignment of every record boundary;
- the pod size being recomputed rather than trusted;
- what the rename changes and what it leaves alone;
- byte-for-byte reproduction of a file without `-f`.

Design choices that follow the code rather than a description of it:

- **Short reads.** `read(n)` past the end of the file returns the bytes
  that remain and raises nothing (`ReadEnd`).
- **Reads too large to serve.** Python 2's `file.read(n)` takes `n` as a C
  `long` and allocates room for `n` bytes before it reads. A length word of
  2^63 or more raises `OverflowError`, and one the machine cannot allocate
  raises `MemoryError`. The `try` around the unpack does not catch either, so
  `main` stops before its first write and the output file stays empty. The
  model takes the largest count a read can serve as a parameter `limit`
  below 2^63 (`READ_LIMIT`), because what can be allocated depends on the
  machine. A read of more than `limit` bytes fails before it moves the
  position. `DecodeRecord` then gives `ReadFailed`, loading ends with
  `ok` false, and `Rewritten` is empty (`HugeKeyIdLengthLeavesOutputEmpty`).
- **Truncated records.** A record whose fields are cut short is still
  loaded with the shorter fields. The script has no "truncated record"
  error, so the model has none either.
- **The end marker.** `Key.read` returns `False` exactly when fewer than 40
  bytes remain. The short read of 40 bytes has already consumed those bytes
  (the `EOF` trailer, for instance), so the input is left at its end, not at
  the start of the trailer. The docstring at
  `fix_scripts/keyring/fix_keyring.py:112-114` says the next `read(1)` gives
  the `E` of `EOF`; the code at lines 119-123 does not do that.
- **The stored pod size.** It is unpacked but never used. The amounts read
  come from the four field lengths alone (`DecodeIgnoresPodSize`).
- **The header scan.** `read_keyring_header` has no bound on its scan. It
  needs a colon somewhere ahead, because without one its loop never ends. That
  is a precondition here, not a bounded scan that fails on a missing colon.
- **Renamed key length.** `percona_binlog:0` is two bytes longer than
  `percona_binlog`, so a renamed record's pod size grows by 2
  (`RenamedPodSize`).
- **Byte order.** `struct` code `Q` packs in the machine's native byte order.
  The model fixes little-endian, as on x86-64. Files written on a big-endian
  host are not modelled.

## Model

| member | source | states |
|---|---|---|
| Bytes.U64 | fix_scripts/keyring/fix_keyring.py:85 | `struct.pack('Q', n)`: exactly 8 bytes, little-endian; `Word` undoes it (`WordOfU64`, `U64OfWord`) |
| Bytes.Word | fix_scripts/keyring/fix_keyring.py:121 | `struct.unpack('Q', s)` of 8 bytes: a number below 2^64; `U64` undoes it |
| Bytes.Pack | fix_scripts/keyring/fix_keyring.py:85 | `struct.pack('QQQQQ', ...)`: five words give exactly 8 bytes each, back to back |
| Bytes.Unpack | fix_scripts/keyring/fix_keyring.py:121 | `struct.unpack('QQQQQ', ...)`: 40 bytes give five words, each below 2^64 |
| Bytes.FromLittleEndianOfLittleEndian | fix_scripts/keyring/fix_keyring.py:85 | a number written in `width` little-endian bytes reads back as itself |
| Bytes.LittleEndianOfFromLittleEndian | fix_scripts/keyring/fix_keyring.py:121 | any byte string is the little-endian encoding of the number it reads as |
| Bytes.WordOfU64 | fix_scripts/keyring/fix_keyring.py:85 | unpacking one packed word gives the word back |
| Bytes.U64OfWord | fix_scripts/keyring/fix_keyring.py:121 | packing one unpacked word gives the 8 bytes back |
| Bytes.UnpackPack | fix_scripts/keyring/fix_keyring.py:85 | unpacking the bytes `write` packs gives the same words in the same order |
| Bytes.PackUnpack | fix_scripts/keyring/fix_keyring.py:121 | every string of whole words is the packing of its unpacking |
| Bytes.UnpackTail | fix_scripts/keyring/fix_keyring.py:121 | the words after the first depend only on the bytes after the first 8 |
| Bytes.Zeros | fix_scripts/keyring/fix_keyring.py:149 | `struct.pack('{n}x')` is n bytes, all null |
| KeyFormat.ReadEnd | fix_scripts/keyring/fix_keyring.py:126-129 | a read of n bytes at pos stops after n bytes or at the end of the data, whichever comes first, and never goes back |
| KeyFormat.Padding | fix_scripts/keyring/fix_keyring.py:140-148 | `(8 - offset % 8) % 8` is below 8 and brings the offset to a multiple of 8 |
| KeyFormat.PaddingIsLeast | fix_scripts/keyring/fix_keyring.py:140-148 | any count below 8 that realigns the offset is that padding: the padding is the least realignment |
| KeyFormat.PodSize | fix_scripts/keyring/fix_keyring.py:49-61 | `pod_size()`: 40 bytes of words plus the four field lengths, so at least 40; it is the length of the unpadded record (`Unpadded`) |
| KeyFormat.LengthWords | fix_scripts/keyring/fix_keyring.py:85 | the five words written (pod size, then the four field lengths) all fit in 64 bits when the pod size does |
| KeyFormat.ReadFields | fix_scripts/keyring/fix_keyring.py:126-129 | the four field reads give one field per length and stop inside the data |
| KeyFormat.ReadFieldsAdvance | fix_scripts/keyring/fix_keyring.py:126-129 | the reads advance the position by exactly the bytes they return |
| KeyFormat.ReadFourFields | fix_scripts/keyring/fix_keyring.py:126-129 | the four reads, spelled out: each field is the slice between consecutive read ends |
| KeyFormat.ReadFieldsExact | fix_scripts/keyring/fix_keyring.py:126-129 | fields that are all present are read back exactly, and reading stops right after the last |
| KeyFormat.ReadFieldsSuffix | fix_scripts/keyring/fix_keyring.py:126-129 | the fields read depend only on the bytes from where the reads start |
| KeyFormat.DecodeRecord | fix_scripts/keyring/fix_keyring.py:119-133 | `read` gives the end marker exactly when fewer than 40 bytes remain, and then stops at the end of the data; a loaded key consumes at least the 40 bytes of words; the position never passes the end |
| KeyFormat.DecodeRecordReads | fix_scripts/keyring/fix_keyring.py:119-133 | with 40 bytes of words present, `read` raises exactly when one of the four field lengths is beyond what a read can serve, and otherwise returns the four fields read one after another, then skips the padding |
| KeyFormat.ReadFailsOnOversizedLength | fix_scripts/keyring/fix_keyring.py:121-129 | a read fails exactly when the 40 bytes of words are present and one of the four field lengths is more than a read can serve |
| KeyFormat.HugeKeyIdLengthFails | fix_scripts/keyring/fix_keyring.py:126 | a key id length of 2^64-1 followed by three bytes makes `read` raise rather than load a key |
| KeyFormat.DecodedWithinData | fix_scripts/keyring/fix_keyring.py:121-131 | a loaded key's pod size counts only bytes the read consumed |
| KeyFormat.DecodeIgnoresPodSize | fix_scripts/keyring/fix_keyring.py:121-131 | two inputs that differ only in the stored pod size give the same key and the same position |
| KeyFormat.Unpadded | fix_scripts/keyring/fix_keyring.py:85-90 | the five words and the four fields `write` packs, in order: exactly `pod_size()` bytes; `UnpaddedLayout` says where each part lies |
| KeyFormat.EncodeRecord | fix_scripts/keyring/fix_keyring.py:63-92 | what `Key.write` appends at an output offset: the unpadded record, then fewer than 8 padding bytes, ending on a multiple of 8 of the absolute offset; `EncodeRecordSize` gives the layout and `DecodeEncodedRecord` the round trip through `Key.read` |
| KeyFormat.EncodeRecordSize | fix_scripts/keyring/fix_keyring.py:49-92 | the bytes before the padding number exactly `pod_size()`; the padding is null bytes and ends the record on a multiple of 8 of the absolute offset |
| KeyFormat.UnpaddedLayout | fix_scripts/keyring/fix_keyring.py:85-90 | the first word is the pod size recomputed from the current fields; the next four are the field lengths in order; each field sits where those lengths put it |
| KeyFormat.EncodedUnpadded | fix_scripts/keyring/fix_keyring.py:85-90 | a record written at `pos` holds its words and fields, unpadded, in its first `pod_size()` bytes |
| KeyFormat.EncodedRecordAt | fix_scripts/keyring/fix_keyring.py:85-92 | a record written at `pos` shows the reader its length words and its fields at the offsets they declare, then its padding |
| KeyFormat.DecodeEncodedRecord | fix_scripts/keyring/fix_keyring.py:95-133 | round trip: reading at offset `pos` the bytes `write` produced at `pos` gives the same key and stops just past the padding, provided each field fits one read |
| KeyringFormat.FirstColon | fix_scripts/keyring/fix_keyring.py:158-163 | the scan stops at a colon with no colon before it |
| KeyringFormat.ReadHeader | fix_scripts/keyring/fix_keyring.py:152-167 | `read_keyring_header`: returns the bytes it consumed, which run past the first colon by at most the 3 version bytes; `ReadHeaderOfHeader` is its round trip |
| KeyringFormat.ReadHeaderIsConsumedPrefix | fix_scripts/keyring/fix_keyring.py:152-167 | the header returned is exactly the bytes consumed: everything up to the first colon, then 3 more bytes when they exist |
| KeyringFormat.ReadHeaderOfHeader | fix_scripts/keyring/fix_keyring.py:152-167 | on a file that starts with a header, the header is returned verbatim and the position stops right after it |
| KeyringFormat.KnownHeaderIsHeader | fix_scripts/keyring/fix_keyring.py:104-106 | `Keyring file version:1.0` is a 24-byte header |
| KeyringFormat.ReadKnownHeader | fix_scripts/keyring/fix_keyring.py:104-106 | on a file starting `Keyring file version:1.0` the header read is those 24 bytes, and the position stops at 24 |
| KeyringFormat.Rename | fix_scripts/keyring/fix_keyring.py:213-215 | one turn's rename: the key id changes exactly when `fix` is set and the id is `percona_binlog`, and then becomes `percona_binlog:0`; the other three fields never change |
| KeyringFormat.RenameAll | fix_scripts/keyring/fix_keyring.py:212-218 | the write loop keeps the number of keys |
| KeyringFormat.RenameAllSpec | fix_scripts/keyring/fix_keyring.py:212-218 | with `fix`, every `percona_binlog` id becomes `percona_binlog:0`; any other id, and every id without `fix`, is unchanged; key type, user id and key bits never change; count and order are kept |
| KeyringFormat.RenameAllAt | fix_scripts/keyring/fix_keyring.py:212-218 | the i-th key out is the i-th key in, treated on its own |
| KeyringFormat.RenameAllWithoutFix | fix_scripts/keyring/fix_keyring.py:212-218 | without `fix` no key changes |
| KeyringFormat.RenameAllIdempotent | fix_scripts/keyring/fix_keyring.py:212-218 | applying the fix to already-fixed keys changes nothing more |
| KeyringFormat.RenamedPodSize | fix_scripts/keyring/fix_keyring.py:61 | the pod size is recomputed after the rename: a renamed key's grows by 2, and without `fix` it stays the same |
| KeyringFormat.Records | fix_scripts/keyring/fix_keyring.py:212-219 | what the write loop appends: each key's record at the offset the previous one reached; nothing exactly when there are no keys; `RecordsSnoc` and `RecordBoundariesAligned` state its layout |
| KeyringFormat.RecordsSnoc | fix_scripts/keyring/fix_keyring.py:212-219 | one more key appends its record, padded for the offset the output has reached |
| KeyringFormat.RecordsEndAligned | fix_scripts/keyring/fix_keyring.py:144-149 | the last record written ends on a multiple of 8 of the absolute offset |
| KeyringFormat.RecordBoundariesAligned | fix_scripts/keyring/fix_keyring.py:212-219 | every record boundary, not only the last, falls on a multiple of 8, and the first n records begin the output |
| KeyringFormat.DecodeAll | fix_scripts/keyring/fix_keyring.py:199-206 | the load loop: `Key.read` until the end marker or a failed read; every key loaded takes at least 40 bytes of what remains, so there are at most a fortieth of them; `DecodeAllOfRecords` is its round trip |
| KeyringFormat.DecodeAllWithinData | fix_scripts/keyring/fix_keyring.py:197-206 | every loaded key fits, pod size and all, between the load position and the end of the file, whether loading ends at the end marker or on a failed read |
| KeyringFormat.FirstOfRecords | fix_scripts/keyring/fix_keyring.py:199-218 | in a run the write loop wrote, the first record loads back as the first key, and the rest of the run starts where its read stopped |
| KeyringFormat.DecodeAllOfRecords | fix_scripts/keyring/fix_keyring.py:197-221 | round trip of a run: loading what the write loop wrote, followed by a trailer shorter than 40 bytes, gives back the same keys in the same order and ends without a failed read, provided each field fits one read |
| KeyringFormat.LoadedKeysPackable | fix_scripts/keyring/fix_keyring.py:199-218 | in a file smaller than 2^63 bytes, every loaded key fits the 64-bit words, renamed or not |
| KeyringFormat.Rewritten | fix_scripts/keyring/fix_keyring.py:193-221 | the file `main` writes: empty exactly when loading fails; otherwise it starts with the header read and ends with `EOF`; `RewrittenFromParts`, `RewriteOfWrittenFile` and `RewriteWithoutFixIsIdentity` say what lies between |
| KeyringFormat.RewrittenFromParts | fix_scripts/keyring/fix_keyring.py:197-221 | after a load that reaches the end marker, the output is the header verbatim, then the loaded keys renamed and re-encoded in load order, then `EOF`; after a failed read it is empty |
| KeyringFormat.RewriteOfWrittenFile | fix_scripts/keyring/fix_keyring.py:197-221 | rewriting a file this writer produced keeps the header and the keys and their order, applies only the rename, and ends with `EOF` |
| KeyringFormat.HugeKeyIdLengthLeavesOutputEmpty | fix_scripts/keyring/fix_keyring.py:193-206 | a header followed by a record whose key id length is 2^64-1 leaves the output file empty |
| KeyringFormat.RewriteWithoutFixIsIdentity | fix_scripts/keyring/fix_keyring.py:197-221 | without `fix`, rewriting a file this writer produced reproduces it byte for byte |
| Streams.Reader.constructor | fix_scripts/keyring/fix_keyring.py:193 | an opened input is at position 0, with the largest count a read can serve |
| Streams.Reader.Read | fix_scripts/keyring/fix_keyring.py:121-129 | `read(n)` fails, without moving, exactly when `n` is beyond what a read can serve; otherwise it returns the bytes from the position to the read's end and moves the position there |
| Streams.Reader.Tell | fix_scripts/keyring/fix_keyring.py:140 | `tell()` is the position |
| Streams.Writer.constructor | fix_scripts/keyring/fix_keyring.py:194 | an opened output is empty |
| Streams.Writer.Write | fix_scripts/keyring/fix_keyring.py:85-90 | `write(b)` appends `b` |
| Streams.Writer.Tell | fix_scripts/keyring/fix_keyring.py:148 | `tell()` is the number of bytes written |
| FixKeyring.Key.constructor | fix_scripts/keyring/fix_keyring.py:40-47 | a new key holds the four fields given |
| FixKeyring.Key.PodSize | fix_scripts/keyring/fix_keyring.py:49-61 | `pod_size()` is 40 plus the four field lengths, and it is the length of the record before its padding |
| FixKeyring.Key.Write | fix_scripts/keyring/fix_keyring.py:63-92 | `write` appends exactly `EncodeRecord` of the key's current value, padded for the output's offset |
| FixKeyring.Key.Read | fix_scripts/keyring/fix_keyring.py:94-133 | `read` raises exactly when `DecodeRecord` fails, returns `False` (null) exactly at the end marker, and otherwise a new key holding the record read; when it does not raise, the position moves to where `DecodeRecord` stops |
| FixKeyring.Key.ReadPadding | fix_scripts/keyring/fix_keyring.py:135-141 | `read_padding` consumes the padding for the current position, or what is left of it, and then the position is 8-aligned unless at the end |
| FixKeyring.Key.WritePadding | fix_scripts/keyring/fix_keyring.py:143-149 | `write_padding` appends fewer than 8 null bytes, and the output length becomes a multiple of 8 |
| FixKeyring.ReadKeyringHeader | fix_scripts/keyring/fix_keyring.py:152-167 | the byte loop and the version read return `ReadHeader` and stop where it stops |
| FixKeyring.LoadKeys | fix_scripts/keyring/fix_keyring.py:197-206 | the load loop gathers the keys `DecodeAll` gives, as distinct new objects, and fails exactly when `DecodeAll` does; when it does not fail it leaves the input at its end |
| FixKeyring.FixAndWrite | fix_scripts/keyring/fix_keyring.py:213-218 | one turn of the write loop renames the key in place when `fix` asks, writes it, and changes no other key |
| FixKeyring.WriteKeys | fix_scripts/keyring/fix_keyring.py:209-219 | after the write loop the keys hold the renamed values, and the output has grown by their records in order, each padded for where it lands |
| FixKeyring.WriteStep | fix_scripts/keyring/fix_keyring.py:212-219 | an output holding what preceded the loop and the records of the first i keys, once the i-th key is written at the offset reached, holds the records of the first i+1 |
| FixKeyring.LoadStep | fix_scripts/keyring/fix_keyring.py:201-206 | a turn of the load loop ends it with every key loaded, or ends it on a failed read, or adds the key read and keeps the loop invariant |
| FixKeyring.FixKeyringFile | fix_scripts/keyring/fix_keyring.py:193-221 | `main` from the opened files on writes exactly `Rewritten(input, fix, limit)`, and fails exactly when loading does, leaving the output empty |

## Left out

- Command-line parsing (`fix_scripts/keyring/fix_keyring.py:224-246`) is argument plumbing. `fix` is a parameter.
- The path checks and the `open` calls (`fix_scripts/keyring/fix_keyring.py:187-194`) are filesystem I/O. The input's bytes are a parameter, and the output starts empty.
- The `print` progress and advisory messages are logging only. This includes the display of `SYSTEM` for an empty user id and the hint about an unfixed `percona_binlog` key.
- Key de-obfuscation exists only as TODOs. The key bits are opaque bytes.
- Native byte order and alignment of `struct`: the model fixes 8-byte little-endian words.
- The script has no bounded header scan that fails on a missing colon. Its loop never ends without a colon, so a colon is a precondition instead.
- The script has no error for a record cut short. Fields cut short by the end of the file are loaded as they are read.
- Which read counts the machine can allocate is not modelled. It is the parameter `limit`, below 2^63. `OverflowError` and `MemoryError` are both modelled as the same failed read, with no exception type.
- Streams.Reader.constructor: requires `limit` to be at least 40. The 40-byte word read and the 1- and 3-byte header reads are assumed never to fail.
- FixKeyring.Key.Write: requires the pod size to fit in 64 bits. With a larger key, the script's `struct.pack` raises `struct.error` after nothing has been written, and that exception is not modelled. Keys loaded from a file smaller than 2^63 bytes always fit (`LoadedKeysPackable`).
- FixKeyring.FixAndWrite: requires the renamed key to fit in 64 bits, for the reason given for `Key.Write`.
- FixKeyring.WriteKeys: requires every renamed key to fit in 64 bits, so the `struct.error` that would stop the loop part-way is not modelled.
- FixKeyring.FixKeyringFile: requires a colon in the input and an input smaller than 2^63 bytes. Without the colon the script never terminates; the size bound is the largest file offset.
- FixKeyring.ReadKeyringHeader: requires a colon ahead of the position, because the script loops forever without one.
- The `python` 2 string semantics (`str` as bytes) are modelled as byte sequences. The `key is False` and `fix is True` identity tests are modelled as a null result and a boolean.
