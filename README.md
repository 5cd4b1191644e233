# wizwad KIWAD archives, modelled in Dafny

This project models the core of `wizwad/wad.py`, which reads and writes KIWAD
archives, a container format for game assets. A KIWAD archive has four
parts:

- a header: the magic `KIWAD`, a signed 32-bit version, a signed 32-bit file
  count and, from version 2 on, one reserved byte `0x01`;
- a journal: one record per file, each made of 21 fixed bytes (`struct`
  format `<lll?Ll`: offset, size, zipped size, is-zip flag, CRC, name
  length) followed by the name and a NUL;
- a data block holding each file's stored bytes, zlib-compressed unless the
  file is MP3 or Ogg audio;
- "unpatched" placeholders: entries whose stored bytes begin with four zero
  bytes. `read` gives "no data" for them and `_extract_all` writes an empty file.

The model has these modules:

- `Bytes`: bytes; little-endian `struct` packing of `<l`, `<L` and `?`; and
  Python slicing with negative and out-of-range bounds, because a record's
  name length may be negative and can move the cursor back.
- `Crc32`: the bitwise reflected CRC-32 and zlib's `crc32(data, value)`.
- `Format`: `WadFileInfo`, the header, the 21-byte record and the placeholder test.
- `FileMap`: `Wad._file_map`, a Python dict that keeps insertion order and
  keeps the last value assigned to a key.
- `Journal`: the reader. The parse is a function, and the cursor loop of
  `_refresh_journal` is a method proved equal to it. The `Wad` class has the
  name map, the refreshed-once flag and the size cache as fields. It also
  holds `size`, `name_list`, `info_list`, `get_info`, `read` and the
  `_extract_all` loop.
- `Paths`: `PurePosixPath.suffix`, the `_NO_COMPRESS` rule and the
  `sorted(..., key=as_posix)` order.
- `Packer`: the loop of `_calculate_chunk`; the `journal_size` formula;
  `more_itertools.divide`; and the write loops of `_insert_all_fast`. Each
  is proved against a function that describes the archive it produces.
- `Archive`: packer and reader together. It contains `from_full_add`, the
  proof that the reader gives back what the packer wrote, and the
  repository's repack round trip.

The rest of the outside world enters as parameters:

- the directory walk is a sequence of (path, contents) pairs;
- `zlib.compress` (with its compression level) is a function `bytes -> bytes`;
- `zlib.decompress` is a function that returns `None` where zlib would raise;
- the memory-mapped file is the value `data: bytes`.

## Model

| member | source | states |
|---|---|---|
| Bytes.PySlice | wizwad/wad.py:121 | within bounds a Python slice is the plain subsequence, clamped at the end; it never has more bytes than its input |
| Bytes.PackI32 | wizwad/wad.py:296 | `<l` packs four bytes, and the top bit of the last one is set exactly for a negative value |
| Bytes.UnpackI32 | wizwad/wad.py:109-111 | `<l` reads a value that fits 32 signed bits; it is negative exactly when the top bit of the last byte is set, and then it is the unsigned reading less 2^32 |
| Bytes.PackU32 | wizwad/wad.py:313 | `<L` packs four bytes; `U32RoundTrip` and `U32BytesRoundTrip` prove it and `UnpackU32` inverse to each other |
| Bytes.UnpackU32 | wizwad/wad.py:121 | `<L` reads a value that fits 32 unsigned bits |
| Bytes.PackBool | wizwad/wad.py:312 | `?` packs one byte; `UnpackBool` states which bytes pack back unchanged |
| Bytes.UnpackBool | wizwad/wad.py:120-122 | `?` reads any non-zero byte as true, so a 0 or 1 byte packs back unchanged and any other byte packs back as 1 |
| Bytes.I32RoundTrip | wizwad/wad.py:120-121 | unpacking `<l` from the four bytes packed for any 32-bit signed value gives that value back |
| Bytes.U32RoundTrip | wizwad/wad.py:120-121 | the same for `<L` and any 32-bit unsigned value |
| Bytes.I32BytesRoundTrip | wizwad/wad.py:306-316 | conversely, packing the value unpacked from any four bytes gives those four bytes back |
| Bytes.U32BytesRoundTrip | wizwad/wad.py:306-316 | the same for `<L` |
| Crc32.Checksum | wizwad/wad.py:360 | the stored CRC, `crc32(data, 0xFFFFFFFF) ^ 0xFFFFFFFF`, always fits the unsigned `L` field |
| Crc32.ZlibCrc32 | wizwad/wad.py:360 | `zlib.crc32` of no bytes returns the value it was seeded with |
| Crc32.ChecksumIsRegisterFromZero | wizwad/wad.py:360 | seeding zlib with 0xFFFFFFFF and inverting the result runs the bare CRC register from zero (not the standard CRC-32 of the data) |
| Crc32.CheckValue | wizwad/wad.py:360 | the modelled `zlib.crc32` gives the standard check value 0xCBF43926 for ASCII "123456789" |
| Format.PackHeader | wizwad/wad.py:293-300 | the header is 13 bytes, or 14 from version 2 on; it starts with the magic, then the version, then the file count, and from version 2 on its last byte is the reserved `0x01` |
| Format.PackRecord | wizwad/wad.py:306-316 | a record is 21 bytes, and its flag byte at offset 12 is 1 for a compressed entry and 0 otherwise |
| Format.UnpackRecord | wizwad/wad.py:120-122 | every field read fits its `struct` format, so the record can be packed again; the flag is true exactly when byte 12 is non-zero; the name length is negative exactly when the top bit of byte 20 is set |
| Format.IsUnpatched | wizwad/wad.py:152-154 | a placeholder has at least four stored bytes, and four or more bytes are a placeholder exactly when the first four are zero |
| Format.RecordRoundTrip | wizwad/wad.py:306-316 | unpacking a packed record gives back all six fields |
| Format.RecordBytesRoundTrip | wizwad/wad.py:120-122 | repacking the fields unpacked from 21 bytes gives those bytes back, provided the flag byte is 0 or 1 |
| FileMap.Insert | wizwad/wad.py:132-134 | assigning to a key keeps the keys listed once each; a new name goes last, and an existing name keeps its place with its value replaced |
| FileMap.Values | wizwad/wad.py:83 | `list(d.values())` has one element per key, and its members are exactly the values of the mapping |
| FileMap.InsertAll | wizwad/wad.py:132-134 | filing records one after another keeps the dict consistent; the keys already there keep their places, and each record adds at most one key |
| FileMap.InsertAllKeys | wizwad/wad.py:132-134 | after filing the records, a name is a key exactly when it was one before or some record carries it |
| FileMap.InsertAllLastWins | wizwad/wad.py:132-134 | the entry kept under a name is the last record filed with that name |
| FileMap.InsertAllKeyedByName | wizwad/wad.py:132-134 | every entry is filed under its own name |
| FileMap.InsertAllDistinct | wizwad/wad.py:132-134 | when all names differ, the keys are the names in journal order and the values are the records in journal order |
| Journal.StripNul | wizwad/wad.py:128 | `rstrip("\x00")` keeps a prefix of the name, does not end in NUL, and removes only NULs |
| Journal.ParseRecord | wizwad/wad.py:120-130 | one iteration fails with `Truncated(cursor)` exactly when the Python slice `data[cursor:cursor + 21]` is shorter than 21 bytes (for a cursor from 0 on, when fewer than 21 bytes remain; a negative cursor counts from the end); otherwise the cursor moves on by 21 plus the announced name length |
| Journal.IterateChain | wizwad/wad.py:118-130 | a loop whose iteration k yields record k and ends at `ends[k]` yields all the records and ends at the last cursor |
| Journal.ParseRecordsLength | wizwad/wad.py:124-130 | after the loop, the cursor has moved by 21 plus the name length for every record read |
| Journal.ParseRecords | wizwad/wad.py:118-130 | a successful run of `count` iterations yields `count` records, and the cursor ends 21 plus the name length per record after the start |
| Journal.ParseJournal | wizwad/wad.py:100-134 | the records start after 13 header bytes, or 14 from version 2 on; there are `file_num` of them, or none when `file_num` is negative; the journal ends where the header and records say |
| Journal.ParseFailurePersists | wizwad/wad.py:118-122 | once an iteration raises, every longer run of the loop raises the same error |
| Journal.FileRecords | wizwad/wad.py:118-134 | the record loop returns the error of the parse when it fails, and otherwise the map with every parsed record filed in order |
| Journal.Wad.constructor | wizwad/wad.py:36-46 | a new archive object has an empty map, has not been refreshed and has no cached size |
| Journal.Wad.RefreshJournal | wizwad/wad.py:100-134 | a second call changes nothing; the first call raises the parse error or files every parsed record in the map |
| Journal.Open | wizwad/wad.py:36-48 | `Wad(file)` succeeds exactly when the journal parses; the object then holds the bytes, a map of exactly the journal's records and no cached size |
| Journal.Wad.NameList | wizwad/wad.py:73-77 | lists each name of the map exactly once and no other name |
| Journal.Wad.InfoList | wizwad/wad.py:79-83 | one entry per listed name, in the same order, each carrying that name; its members are exactly the map's values |
| Journal.Wad.GetInfo | wizwad/wad.py:166-177 | succeeds exactly for a name in the map, giving the entry filed under it; otherwise fails with `NotFound(name)` |
| Journal.StoredSlice | wizwad/wad.py:146-150 | the slice is never longer than the archive; an entry within bounds gets exactly its `zipped_size` bytes (compressed) or `size` bytes from its offset, and one that runs past the end gets the bytes up to the end |
| Journal.ReadEntry | wizwad/wad.py:144-159 | no data exactly for a placeholder; fails exactly when a compressed non-placeholder does not decompress; otherwise gives the decompressed bytes, or the stored bytes if the entry is not compressed |
| Journal.Wad.Read | wizwad/wad.py:136-159 | an unknown name fails with `NotFound`; a known name reads its entry |
| Journal.ReadIgnoresCodecUnlessZipped | wizwad/wad.py:146-157 | the decompressor is never consulted for an uncompressed entry or a placeholder |
| Journal.Wad.Size | wizwad/wad.py:63-71 | gives the sum of the listed entries' sizes and caches it; a cached 0 is computed again |
| Journal.TotalSize | wizwad/wad.py:70 | no entries sum to 0; when no size is negative, the sum is not negative and no entry's size exceeds it |
| Journal.ExtractMatchesRead | wizwad/wad.py:197-210 | extraction gives each entry what `read` gives it, with an empty file where `read` gives no data |
| Journal.ExtractContent | wizwad/wad.py:197-212 | a placeholder becomes an empty file; the entry fails, naming itself, exactly when it is compressed, not a placeholder and does not decompress; otherwise it gets the decompressed bytes, or the stored bytes when not compressed |
| Journal.ExtractEntries | wizwad/wad.py:193-212 | a successful extraction writes one file per entry; a failed one reports a decompression error |
| Journal.ExtractLoop | wizwad/wad.py:193-212 | the loop over the entries writes what `ExtractEntries` describes and stops at the first decompression failure |
| Journal.ExtractFailurePersists | wizwad/wad.py:209-210 | once an entry fails to decompress, extracting any longer list fails with the same error |
| Journal.ExtractEntriesContents | wizwad/wad.py:193-212 | extraction succeeds exactly when every entry does; it then writes one (name, content) pair per entry, in order |
| Journal.ExtractEntriesFirstFailure | wizwad/wad.py:193-212 | a failed extraction reports, by name, the first entry whose content cannot be extracted; every entry before it can be |
| Journal.Wad.ExtractAll | wizwad/wad.py:179-212 | extracts every entry of `info_list()` in that order |
| Paths.Suffix | wizwad/wad.py:345 | the suffix is empty or a dot-initial tail of the path |
| Paths.SuffixIsAudio | wizwad/wad.py:345 | the suffix is `.mp3` or `.ogg` exactly when the path ends in `.mp3` or `.ogg` with a byte of the final component before the dot |
| Paths.IsZip | wizwad/wad.py:345 | a file is compressed exactly when its path is not such an MP3 or Ogg name |
| Paths.LexLeTotal | wizwad/wad.py:265 | any two paths are comparable in the sort order |
| Paths.LexLeAntisymmetric | wizwad/wad.py:265 | two paths that each sort no later than the other are equal |
| Paths.LexLeTransitive | wizwad/wad.py:265 | the sort order is transitive |
| Paths.SortByPath | wizwad/wad.py:265 | sorting permutes the files |
| Paths.SortByPathSorted | wizwad/wad.py:264-265 | the sorted list is in ascending path order |
| Paths.SortedUnique | wizwad/wad.py:265 | two permutations of the same files, both in path order with no path repeated, are equal |
| Paths.SortByPathDistinct | wizwad/wad.py:265 | sorting keeps the paths distinct |
| Paths.SortByPathOfSorted | wizwad/wad.py:265 | files already in path order are left in place |
| Packer.Store | wizwad/wad.py:344-360 | a prepared file has its path and the size read; it is compressed exactly when its path is not MP3 or Ogg audio, and its stored bytes are then the compressed ones, else the contents; `zipped_size` is -1 exactly when it is not compressed; the CRC is taken over the stored bytes; and the length the reader takes (`zipped_size` or `size`) is the stored bytes' length |
| Packer.StoreAll | wizwad/wad.py:340-360 | one prepared file per source file, in order; `StoreAllAppend` shows the preparation runs file by file |
| Packer.StoreAllAppend | wizwad/wad.py:344-360 | preparing two runs of files is preparing each run in turn |
| Packer.Place | wizwad/wad.py:362-366 | one journal entry per prepared file, the first at the start offset |
| Packer.DataBlock | wizwad/wad.py:367 | the data buffer is as long as all stored bytes together |
| Packer.DataBlockAround | wizwad/wad.py:367 | the data buffer is the buffer of the files before file i, then file i's stored bytes, then the buffer of the files after it |
| Packer.PlaceAt | wizwad/wad.py:362-366 | entry i sits at the start offset plus the stored lengths of the entries before it |
| Packer.PlaceAppend | wizwad/wad.py:362-366 | laying out two runs of files is laying out the second from where the first ends |
| Packer.PlaceLocatesData | wizwad/wad.py:362-367 | each entry's offset, less the start, is where its stored bytes sit in the data buffer, and the entry announces their flag and sizes |
| Packer.CalculateChunk | wizwad/wad.py:331-369 | the loop returns the laid-out entries, the buffer of all stored bytes, and the start plus the buffer's length |
| Packer.DivideFlatten | wizwad/wad.py:281 | the `workers` parts of `divide` put back together are the sorted file list |
| Packer.Divide | wizwad/wad.py:281 | `divide(n, s)` gives `n` contiguous parts in order; with `q, r = divmod(len(s), n)`, part i holds `q` elements, plus one for the first `r` parts |
| Packer.DividePrefix | wizwad/wad.py:281 | the first k parts together are the first `k * q + min(k, r)` elements of the list |
| Packer.PartStartClosed | wizwad/wad.py:281 | the parts before part i hold `i * q + min(i, r)` elements |
| Packer.JournalSizeAsWritten | wizwad/wad.py:269-276 | the code's `journal_size` is the length of the header and records, plus one below version 1 |
| Packer.JournalSize | wizwad/wad.py:269-276 | the corrected size: the header alone for no files, and each further file adds its 21-byte record, its name and a NUL |
| Packer.JournalSizeAgrees | wizwad/wad.py:269-276 | from version 1 on, the `journal_size` formula equals the length of the header and records |
| Packer.JournalSizeOffByOne | wizwad/wad.py:269-276 | below version 1 the formula is one byte more than is written |
| Packer.HeaderOf | wizwad/wad.py:306-315 | the record fields of an entry, with the name length `len(info.name) + 1` at least 1; `struct.pack` accepts them exactly when offset, sizes and name length fit `l` and the CRC fits `L` |
| Packer.EntryBytes | wizwad/wad.py:306-319 | one record as written is 21 bytes, the name and a NUL; `RecordRoundTrip` reads its fields back |
| Packer.JournalBytes | wizwad/wad.py:305-319 | each laid-out entry's 21 packed bytes, then its name and a NUL, in order, so the records are empty exactly when there are no entries; `JournalBytesLength` and `JournalBytesAppend` state its length and how it splits |
| Packer.JournalBytesAppend | wizwad/wad.py:305-319 | the records of two runs of entries are the records of each run, one after the other |
| Packer.JournalBytesLength | wizwad/wad.py:305-319 | the records take 22 bytes plus the name per entry |
| Packer.PlaceRebase | wizwad/wad.py:309 | a chunk laid out from 0 and moved by `chunk_offset` is the chunk laid out from `chunk_offset` |
| Packer.Rebase | wizwad/wad.py:309 | moving every offset by `chunk_offset` keeps one entry per entry; `PlaceRebase` shows it turns a chunk laid out from 0 into one laid out from `chunk_offset` |
| Packer.JournalSizeIsBytesWritten | wizwad/wad.py:293-319 | the header and records written take exactly `JournalSize` bytes, whatever offsets they hold |
| Packer.Image | wizwad/wad.py:293-327 | the archive fails, with `FieldOutOfRange`, exactly when the version, the file count or a field of some laid-out record does not fit its `struct` format; otherwise the data block starts `JournalSize` bytes in, whatever offsets the records announce |
| Packer.Pack | wizwad/wad.py:246-327 | packing fails with `BadWorkerCount` exactly for fewer than one worker; otherwise the data block of the sorted files starts `JournalSize` bytes in, where the records announce it |
| Packer.PackAsWritten | wizwad/wad.py:246-327 | with the code's `journal_size`: the same failure for fewer than one worker, and the data block still starts `JournalSize` bytes in, whatever offsets the records announce |
| Packer.PackAsWrittenAgrees | wizwad/wad.py:273-276 | from version 1 on, the archive written is the one with the data block announced where the journal ends |
| Packer.WriteRecords | wizwad/wad.py:305-319 | the inner write loop emits each entry's record, moved by `chunk_offset`, then its name and a NUL; it fails exactly when some moved record does not fit |
| Packer.WriteChunks | wizwad/wad.py:302-324 | the loop over the chunks writes the same journal and data block as laying out every file in one run from `journal_size` |
| Packer.InsertAllFast | wizwad/wad.py:246-327 | `_insert_all_fast` after the walk writes exactly the header, then the records, then the data block of the sorted files, laid out from the formula's `journal_size`; fewer than one worker fails |
| Archive.ParseImage | wizwad/wad.py:100-134 | reading back a packed archive gives its version, its file count and exactly the entries the packer laid out; the journal ends `JournalSize` bytes in |
| Archive.HeaderReadBack | wizwad/wad.py:107-113 | the reader takes from bytes 5 to 13 exactly the version and file count the packer wrote |
| Archive.ReadRecordsWritten | wizwad/wad.py:118-130 | the record loop started where the packer wrote its records reads them back one by one, ending after the last |
| Archive.PackedSlice | wizwad/wad.py:144-150 | with the data block announced where the journal ends, every entry's slice of the archive is that file's stored bytes |
| Archive.ReadStored | wizwad/wad.py:144-159 | reading an entry whose slice holds a prepared file gives back the file's contents, or no data if the stored bytes look like a placeholder |
| Archive.ReadPacked | wizwad/wad.py:136-159 | `read` on a packed archive gives back each file's contents when decompression undoes compression |
| Archive.ExtractGiven | wizwad/wad.py:193-212 | extracting entries that each give a known content writes exactly those (name, content) pairs |
| Archive.ExtractPacked | wizwad/wad.py:190-212 | extracting a packed archive writes every file under its path with its contents, in path order |
| Archive.PlacedNamesDistinct | wizwad/wad.py:132-134 | distinct paths give distinct journal names, so no record of a packed archive replaces another |
| Archive.SortKeepsNoNulEndings | wizwad/wad.py:265 | sorting keeps every path free of a trailing NUL |
| Archive.FromFullAdd | wizwad/wad.py:214-243 | `from_full_add` succeeds exactly when packing does. The opened archive holds the packed bytes, lists the laid-out entries and lists the names in path order |
| Archive.LastEntryShortAsWritten | wizwad/wad.py:273-276 | below version 1, the last file's record points one byte into its stored bytes, so it reads them without their first byte |
| Archive.PackIgnoresWalkOrder | wizwad/wad.py:253-265 | the archive does not depend on the order the directory walk lists the files |
| Archive.UnpackedFiles | wizwad/wad.py:203-212 | without placeholders, extraction writes each file back with its own contents |
| Archive.RepackReproducesArchive | tests/test_wad.py:93-124 | when decompression undoes compression and no file's stored bytes begin with four zero bytes (so none reads back as a placeholder), packing, opening, extracting and packing again gives the same archive byte for byte, and the listed entries are the laid-out ones |
| Archive.RemakeWad | tests/test_wad.py:93-124 | the test's steps as a method, from version 1 on, when decompression undoes compression and no stored file begins with four zero bytes: the two archives hold the same bytes and list the same entries |

## Left out

- The filesystem is left out: `os.walk`, reading files, `mkdir`, `touch`,
  `write_bytes` and the checks `from_full_add` makes on its paths
  (`is_dir`, `exists`, `overwrite`). A walk is a sequence of (path,
  contents) pairs; extraction yields (path, content) pairs.
- A walk lists no path twice and none ends in NUL, and the lemmas and
  `from_full_add` require this (`DistinctPaths`, `NoNulEndings`).
- `mmap` and file handles are left out, and with them `close` and `closed`.
  The archive is the value `data`; `open` is `read` wrapped in a `BytesIO`.
- Partial output is not modelled. Where `struct.pack` raises part way
  through writing, the packer leaves a partial file on disk; the model
  returns `FieldOutOfRange` and no bytes. Likewise, when `zlib.decompress`
  raises in `_extract_all`, the files before the failing entry have been
  written and the failing entry's parent directory made; the model returns
  only the error.
- The process pool is modelled as a sequential loop over the chunks in
  submission order. A worker's exception and the 61-worker limit on
  Windows are left out. `workers < 1` fails with `BadWorkerCount`, as
  `ProcessPoolExecutor` raises `ValueError`.
- zlib's compression is a parameter, with the compression level fixed
  inside it. Decompression is a parameter that returns `None` where zlib
  raises. The round-trip lemmas require that it undoes compression (`Inverts`).
- Names are bytes. `.decode()` and `.encode()` are left out, including UTF-8
  decode errors; `len(str(file))` then counts bytes, which equals the count
  of characters for ASCII paths.
- Packer.InsertAllFast: matches the source only for ASCII paths. The source
  counts characters for `journal_size` and `name_length` but writes the
  UTF-8 bytes of each name, so a non-ASCII name shifts every offset.
- Archive.FromFullAdd: the same restriction to ASCII paths.
- Archive.RepackReproducesArchive: holds for the source only with ASCII
  paths; with a non-ASCII path the archive the source writes does not read
  back.
- The magic is not checked when reading, as in the source; the model does
  not reject a bad magic.
- Logging is left out (the warning `_extract_all` logs for a placeholder).
- Journal.Wad.RefreshJournal: when `_refresh_journal` raises part way, the
  source leaves the records already filed in the map. The contract gives
  only the error, because `Wad(file)` then raises and the map is never used.
- Archive.RemakeWad: requires version 1 or later. Below version 1 the
  packer's own `journal_size` misplaces the data (see Findings). Like
  `RepackReproducesArchive`, it holds for the source only with ASCII paths.

## Findings

`Packer.JournalSizeAsWritten` and `Packer.PackAsWritten` model the code as
written. `Packer.JournalSizeOffByOne` and `Archive.LastEntryShortAsWritten`
show the discrepancy. The corrected `Packer.JournalSize` is the length of
what is written (`Packer.JournalSizeIsBytesWritten`). The read-back lemmas
`Archive.ReadPacked`, `Archive.ExtractPacked` and
`Archive.RepackReproducesArchive` are proved on it. `Packer.InsertAllFast`
and `Archive.FromFullAdd` keep the code's formula, and
`Packer.PackAsWrittenAgrees` shows that the two agree from version 1 on.

| source | as written | input that shows it | evidently intended | confidence | as-written member | corrected member |
|---|---|---|---|---|---|---|
| wizwad/wad.py:273-276 | `journal_size` counts the reserved byte and subtracts it only when `wad_version == 1`. For a version of 0 or below no reserved byte is written, but it is still counted | version 0, one file `a.mp3` holding `xy`: `journal_size` is 41, but the header and journal take 40 bytes, so the record points at offset 41 and `read` gives `y` | subtract the byte whenever no reserved byte is written (`wad_version < 2`), so the offsets start where the journal ends | not executed | Archive.LastEntryShortAsWritten | Packer.JournalSize |
