/**
 * The packer: `_calculate_chunk` lays out the stored bytes of one chunk of
 * files, and `_insert_all_fast` sorts the files, computes the journal size,
 * splits the files into chunks, and writes the header, the journal records
 * (offsets moved past the journal and the earlier chunks) and the data block.
 */
module Packer {
  import opened Wrappers
  import opened Bytes
  import opened Format
  import opened Crc32
  import opened Paths

  /** `zlib.compress(data, level=compression_level)`, the level fixed; outside the model. */
  type Compressor = bytes -> bytes

  /** `ValueError` for `workers < 1`; `struct.error` for a field `struct.pack` cannot hold. */
  datatype PackError = BadWorkerCount | FieldOutOfRange

  /**
   * What the body of `_calculate_chunk`'s loop works out for one file before
   * placing it: the name, the size read, `zipped_size`, `is_zip`, the CRC and
   * the bytes that go into the data block.
   */
  datatype StoredFile = StoredFile(name: Name, size: int, zippedSize: int, isZip: bool, crc: int, data: bytes)

  /** The bytes the reader takes as a stored file's: `zipped_size` of them if compressed, `size` otherwise. */
  function StoredLength(s: StoredFile): int {
    if s.isZip then s.zippedSize else s.size
  }

  /**
   * One file prepared for the archive: compressed unless it is MP3 or Ogg
   * audio, `zipped_size` -1 exactly when it is not, the CRC taken over the
   * bytes stored, and the length the reader will take its bytes from.
   */
  function Store(f: SourceFile, compress: Compressor): (s: StoredFile)
    ensures s.name == f.path && s.size == |f.contents|
    ensures s.isZip <==> !AudioName(f.path)
    ensures s.data == if s.isZip then compress(f.contents) else f.contents
    ensures s.zippedSize == -1 <==> !s.isZip
    ensures s.crc == Checksum(s.data)
    ensures StoredLength(s) == |s.data|
  {
    var isZip := IsZip(f.path);
    var data := if isZip then compress(f.contents) else f.contents;
    StoredFile(f.path, |f.contents|, if isZip then |data| else -1, isZip, Checksum(data), data)
  }

  function StoreAll(files: seq<SourceFile>, compress: Compressor): (r: seq<StoredFile>)
    ensures |r| == |files|
  {
    seq(|files|, i requires 0 <= i < |files| => Store(files[i], compress))
  }

  lemma StoreAllAppend(a: seq<SourceFile>, b: seq<SourceFile>, compress: Compressor)
    ensures StoreAll(a + b, compress) == StoreAll(a, compress) + StoreAll(b, compress)
  {
    var whole, left, right := StoreAll(a + b, compress), StoreAll(a, compress), StoreAll(b, compress);
    forall i | 0 <= i < |whole|
      ensures whole[i] == (left + right)[i]
    {
      if i < |a| {
        assert (a + b)[i] == a[i];
      } else {
        assert (a + b)[i] == b[i - |a|];
      }
    }
  }

  /** The total length of the stored bytes. */
  function DataLength(ss: seq<StoredFile>): nat
    decreases |ss|
  {
    if ss == [] then 0 else DataLength(ss[..|ss| - 1]) + |ss[|ss| - 1].data|
  }

  /** The stored bytes one after another: the data block. */
  function DataBlock(ss: seq<StoredFile>): (r: bytes)
    ensures |r| == DataLength(ss)
    decreases |ss|
  {
    if ss == [] then [] else DataBlock(ss[..|ss| - 1]) + ss[|ss| - 1].data
  }

  /** The journal entry of a prepared file placed at `offset`. */
  function InfoAt(s: StoredFile, offset: int): WadFileInfo {
    WadFileInfo(s.name, offset, s.size, s.zippedSize, s.isZip, s.crc)
  }

  /** The journal entries of prepared files stored one after another from `base`. */
  function Place(ss: seq<StoredFile>, base: int): (r: seq<WadFileInfo>)
    ensures |r| == |ss|
    ensures ss != [] ==> r[0].offset == base
    decreases |ss|
  {
    if ss == [] then []
    else
      var n := |ss| - 1;
      Place(ss[..n], base) + [InfoAt(ss[n], base + DataLength(ss[..n]))]
  }

  lemma ConcatAssoc<T>(x: seq<T>, y: seq<T>, z: seq<T>)
    ensures x + y + z == x + (y + z)
  {
  }

  /** The last element of `a + b` is that of `b`, and what comes before it is `a` and the rest of `b`. */
  lemma LastOfAppend<T>(a: seq<T>, b: seq<T>)
    requires b != []
    ensures (a + b)[..|a + b| - 1] == a + b[..|b| - 1]
    ensures (a + b)[|a + b| - 1] == b[|b| - 1]
  {
  }

  lemma {:induction false} DataLengthAppend(a: seq<StoredFile>, b: seq<StoredFile>)
    ensures DataLength(a + b) == DataLength(a) + DataLength(b)
    decreases |b|
  {
    if b == [] {
      assert a + b == a;
    } else {
      var n, ab := |b| - 1, a + b;
      assert ab[..|ab| - 1] == a + b[..n];
      DataLengthAppend(a, b[..n]);
    }
  }

  lemma {:induction false} DataBlockAppend(a: seq<StoredFile>, b: seq<StoredFile>)
    ensures DataBlock(a + b) == DataBlock(a) + DataBlock(b)
    decreases |b|
  {
    if b == [] {
      assert a + b == a;
    } else {
      var n, ab := |b| - 1, a + b;
      assert ab[..|ab| - 1] == a + b[..n];
      assert ab[|ab| - 1] == b[n];
      DataBlockAppend(a, b[..n]);
      calc {
        DataBlock(ab);
        DataBlock(a + b[..n]) + b[n].data;
        DataBlock(a) + DataBlock(b[..n]) + b[n].data;
        { ConcatAssoc(DataBlock(a), DataBlock(b[..n]), b[n].data); }
        DataBlock(a) + (DataBlock(b[..n]) + b[n].data);
      }
    }
  }

  /** Lengths and data blocks of consecutive files add up. */
  lemma DataAppend(a: seq<StoredFile>, b: seq<StoredFile>)
    ensures DataLength(a + b) == DataLength(a) + DataLength(b)
    ensures DataBlock(a + b) == DataBlock(a) + DataBlock(b)
  {
    DataLengthAppend(a, b);
    DataBlockAppend(a, b);
  }

  /** Entry `i` sits at `base` plus the stored lengths of the entries before it. */
  lemma {:induction false} PlaceAt(ss: seq<StoredFile>, base: int, i: nat)
    requires i < |ss|
    ensures Place(ss, base)[i] == InfoAt(ss[i], base + DataLength(ss[..i]))
    decreases |ss|
  {
    var n := |ss| - 1;
    if i < n {
      PlaceAt(ss[..n], base, i);
      assert ss[..n][..i] == ss[..i];
    }
  }

  /** Placing `a + b` is placing `a`, then `b` from where `a` ends. */
  lemma {:induction false} PlaceAppend(a: seq<StoredFile>, b: seq<StoredFile>, base: int)
    ensures Place(a + b, base) == Place(a, base) + Place(b, base + DataLength(a))
    decreases |b|
  {
    if b == [] {
      assert a + b == a;
    } else {
      var n := |b| - 1;
      assert (a + b)[..|a + b| - 1] == a + b[..n];
      PlaceAppend(a, b[..n], base);
      DataAppend(a, b[..n]);
    }
  }

  /** `info` announces `s`'s flag and sizes, and its offset less `base` is where `s`'s stored bytes sit in `block`. */
  predicate Locates(block: bytes, base: int, info: WadFileInfo, s: StoredFile) {
    && info.isZip == s.isZip && info.size == s.size && info.zippedSize == s.zippedSize
    && 0 <= info.offset - base && info.offset - base + |s.data| <= |block|
    && block[info.offset - base..info.offset - base + |s.data|] == s.data
  }

  /** The data block is the block of the files before `i`, then file `i`'s bytes, then the block of the rest. */
  lemma DataBlockAround(ss: seq<StoredFile>, i: nat)
    requires i < |ss|
    ensures DataBlock(ss) == DataBlock(ss[..i]) + ss[i].data + DataBlock(ss[i + 1..])
  {
    var front, post := ss[..i + 1], ss[i + 1..];
    assert front + post == ss;
    DataBlockAppend(front, post);
    assert front[..i] == ss[..i];
  }

  lemma MiddleSlice<T>(x: seq<T>, y: seq<T>, z: seq<T>)
    ensures (x + y + z)[|x|..|x| + |y|] == y
  {
  }

  /** An entry's offset, less the base, is where its stored bytes sit in the data block. */
  lemma PlaceLocatesData(ss: seq<StoredFile>, base: int, i: nat)
    requires i < |ss|
    ensures Locates(DataBlock(ss), base, Place(ss, base)[i], ss[i])
  {
    PlaceAt(ss, base, i);
    DataBlockAround(ss, i);
    MiddleSlice(DataBlock(ss[..i]), ss[i].data, DataBlock(ss[i + 1..]));
  }

  /** One more prepared file: its entry sits at `offset`, where the block before it ends, and its bytes follow that block. */
  lemma PlaceSnoc(ss: seq<StoredFile>, i: nat, base: int, offset: int)
    requires i < |ss| && offset == base + DataLength(ss[..i])
    ensures Place(ss[..i], base) + [InfoAt(ss[i], offset)] == Place(ss[..i + 1], base)
    ensures DataBlock(ss[..i]) + ss[i].data == DataBlock(ss[..i + 1])
    ensures offset + |ss[i].data| == base + DataLength(ss[..i + 1])
  {
    assert ss[..i + 1][..i] == ss[..i];
  }

  /**
   * `_calculate_chunk(files, start, ...)`: the offset after the chunk, its
   * data buffer, and one journal entry per file, each at `start` plus the
   * stored lengths of the files before it.
   */
  method CalculateChunk(files: seq<SourceFile>, start: int, compress: Compressor)
    returns (end: int, buffer: bytes, entries: seq<WadFileInfo>)
    ensures entries == Place(StoreAll(files, compress), start)
    ensures buffer == DataBlock(StoreAll(files, compress))
    ensures end == start + |buffer|
  {
    ghost var all := StoreAll(files, compress);
    var currentOffset := start;
    buffer := [];
    entries := [];
    for i := 0 to |files|
      invariant currentOffset == start + DataLength(all[..i])
      invariant buffer == DataBlock(all[..i])
      invariant entries == Place(all[..i], start)
    {
      var file := files[i];
      var isZip := IsZip(file.path);
      var data := file.contents;
      var size := |data|;
      var name := file.path;
      var zippedSize;
      if isZip {
        var compressed := compress(data);
        zippedSize := |compressed|;
        data := compressed;
      } else {
        zippedSize := -1;
      }
      var crc := Checksum(data);
      assert all[i] == Store(file, compress);
      PlaceSnoc(all, i, start, currentOffset);
      var info := WadFileInfo(name, currentOffset, size, zippedSize, isZip, crc);
      assert info == InfoAt(all[i], currentOffset);
      entries := entries + [info];
      currentOffset := currentOffset + |data|;
      buffer := buffer + data;
    }
    assert all[..|files|] == all;
    end := currentOffset;
  }

  /** The parts of `parts`, one after another. */
  function Flatten<T>(parts: seq<seq<T>>): seq<T>
    decreases |parts|
  {
    if parts == [] then [] else Flatten(parts[..|parts| - 1]) + parts[|parts| - 1]
  }

  lemma {:induction false} FlattenAppend<T>(a: seq<seq<T>>, b: seq<seq<T>>)
    ensures Flatten(a + b) == Flatten(a) + Flatten(b)
    decreases |b|
  {
    if b == [] {
      assert a + b == a;
    } else {
      var n, ab := |b| - 1, a + b;
      assert ab[..|ab| - 1] == a + b[..n];
      assert ab[|ab| - 1] == b[n];
      FlattenAppend(a, b[..n]);
      assert Flatten(ab) == Flatten(a + b[..n]) + b[n];
      assert Flatten(b) == Flatten(b[..n]) + b[n];
      assert (Flatten(a) + Flatten(b[..n])) + b[n] == Flatten(a) + (Flatten(b[..n]) + b[n]);
    }
  }

  lemma FlattenSnoc<T>(parts: seq<seq<T>>, c: nat)
    requires c < |parts|
    ensures Flatten(parts[..c + 1]) == Flatten(parts[..c]) + parts[c]
  {
    assert parts[..c + 1][..c] == parts[..c];
  }

  /**
   * Where part `i` of `more_itertools.divide(n, s)` begins, with
   * `q, r = divmod(len(s), n)`: each part before it holds `q` elements, one
   * more for the first `r` parts.
   */
  function PartStart(q: nat, r: nat, i: nat): nat {
    if i == 0 then 0
    else PartStart(q, r, i - 1) + q + (if i - 1 < r then 1 else 0)
  }

  /** The parts before part `i` hold `i * q + min(i, r)` elements. */
  lemma {:induction false} PartStartClosed(q: nat, r: nat, i: nat)
    ensures PartStart(q, r, i) == i * q + (if i < r then i else r)
    decreases i
  {
    if i > 0 {
      PartStartClosed(q, r, i - 1);
      assert i * q == (i - 1) * q + q;
    }
  }

  /** The parts start in order, and all `n` of them take `n * q + r` elements. */
  lemma {:induction false} PartStartBounds(q: nat, r: nat, n: nat, i: nat)
    requires r < n && i <= n
    ensures PartStart(q, r, i) <= PartStart(q, r, n) == n * q + r
    decreases n - i
  {
    if i < n {
      PartStartBounds(q, r, n, i + 1);
    } else {
      PartStartClosed(q, r, n);
    }
  }

  lemma DivMod(n: nat, len: nat)
    requires n >= 1
    ensures n * (len / n) + len % n == len && len % n < n
  {
  }

  /** Part `i` begins no later than it ends, and ends within `len` elements. */
  predicate PartWithin(q: nat, r: nat, len: nat, i: nat) {
    PartStart(q, r, i) <= PartStart(q, r, i + 1) <= len
  }

  /** Part `i` lies within an input of `n * q + r` elements. */
  lemma PartRange(n: nat, q: nat, r: nat, len: nat, i: nat)
    requires n * q + r == len && r < n && i < n
    ensures PartWithin(q, r, len, i)
  {
    PartStartBounds(q, r, n, i + 1);
  }

  /** Every one of the `n` parts lies within an input of `n * q + r` elements. */
  lemma PartRanges(n: nat, q: nat, r: nat, len: nat)
    requires n * q + r == len && r < n
    ensures forall i :: 0 <= i < n ==> PartWithin(q, r, len, i)
  {
    forall i | 0 <= i < n
      ensures PartWithin(q, r, len, i)
    {
      PartRange(n, q, r, len, i);
    }
  }

  /** Part `i` of `more_itertools.divide`, when each part takes `q` elements and the first `r` one more. */
  function Part<T>(q: nat, r: nat, s: seq<T>, i: nat): (p: seq<T>)
    requires PartWithin(q, r, |s|, i)
    ensures |p| == q + (if i < r then 1 else 0)
  {
    s[PartStart(q, r, i)..PartStart(q, r, i + 1)]
  }

  /** `more_itertools.divide(n, s)`: `n` contiguous parts in order, their sizes differing by at most one. */
  function Divide<T>(n: nat, s: seq<T>): (parts: seq<seq<T>>)
    requires n >= 1
    ensures |parts| == n
    ensures forall i :: 0 <= i < n ==> PartWithin(|s| / n, |s| % n, |s|, i)
    ensures forall i :: 0 <= i < n ==> parts[i] == Part(|s| / n, |s| % n, s, i)
  {
    var q, r := |s| / n, |s| % n;
    DivMod(n, |s|);
    PartRanges(n, q, r, |s|);
    seq(n, i requires 0 <= i < n => Part(q, r, s, i))
  }

  lemma PrefixSplit<T>(s: seq<T>, lo: nat, hi: nat)
    requires lo <= hi <= |s|
    ensures s[..hi] == s[..lo] + s[lo..hi]
  {
  }

  /** The first `k` parts put together are the first `PartStart(k)` elements. */
  lemma {:induction false} DividePrefix<T>(n: nat, s: seq<T>, k: nat)
    requires n >= 1 && k <= n
    ensures PartStart(|s| / n, |s| % n, k) <= |s|
    ensures Flatten(Divide(n, s)[..k]) == s[..PartStart(|s| / n, |s| % n, k)]
    decreases k
  {
    var q := |s| / n;
    var r := |s| % n;
    DivMod(n, |s|);
    PartStartBounds(q, r, n, k);
    if k > 0 {
      DividePrefix(n, s, k - 1);
      var parts := Divide(n, s);
      FlattenSnoc(parts, k - 1);
      PrefixSplit(s, PartStart(q, r, k - 1), PartStart(q, r, k));
    }
  }

  /** The parts of `divide` put back together are the input. */
  lemma DivideFlatten<T>(n: nat, s: seq<T>)
    requires n >= 1
    ensures Flatten(Divide(n, s)) == s
  {
    DividePrefix(n, s, n);
    DivMod(n, |s|);
    PartStartBounds(|s| / n, |s| % n, n, n);
    assert Divide(n, s)[..n] == Divide(n, s);
  }


  /** The total length of the names, `sum(len(str(file)) for file in to_write)`. */
  function NamesLength(files: seq<SourceFile>): nat
    decreases |files|
  {
    if files == [] then 0 else NamesLength(files[..|files| - 1]) + |files[|files| - 1].path|
  }

  /**
   * `journal_size` as `_insert_all_fast` computes it: 14, 21 per record, the
   * names, a NUL each, less 1 for version 1. It is the length of what is
   * written, plus one below version 1.
   */
  function JournalSizeAsWritten(version: int, files: seq<SourceFile>): (size: int)
    ensures size == JournalSize(version, files) + if version <= 0 then 1 else 0
  {
    var n := |files|;
    var size := 14 + 21 * n + NamesLength(files) + n;
    if version == 1 then size - 1 else size
  }

  /**
   * The length of the header and journal: the header alone for no files,
   * and each further file adds its record of 21 bytes, its name and a NUL.
   */
  function JournalSize(version: int, files: seq<SourceFile>): (size: nat)
    ensures files == [] ==> size == HeaderSize(version)
    ensures files != [] ==>
              size == JournalSize(version, files[..|files| - 1]) + RECORD_SIZE + |files[|files| - 1].path| + 1
    decreases |files|
  {
    HeaderSize(version) + (RECORD_SIZE + 1) * |files| + NamesLength(files)
  }

  /** The packer's formula is right from version 1 on. */
  lemma JournalSizeAgrees(version: int, files: seq<SourceFile>)
    requires version >= 1
    ensures JournalSizeAsWritten(version, files) == JournalSize(version, files)
  {
  }

  /** Below version 1 it counts the reserved byte that is not written. */
  lemma JournalSizeOffByOne(version: int, files: seq<SourceFile>)
    requires version <= 0
    ensures JournalSizeAsWritten(version, files) == JournalSize(version, files) + 1
  {
  }

  /**
   * The record fields written for `info`: `name_length` counts the NUL, so
   * it is at least 1, and `struct.pack` takes them exactly when the offset,
   * the sizes and the name length fit `l` and the CRC fits `L`.
   */
  function HeaderOf(info: WadFileInfo): (h: RecordHeader)
    ensures h.nameLength >= 1
    ensures Packable(h) <==>
              InI32(info.offset) && InI32(info.size) && InI32(info.zippedSize) && InU32(info.crc) && |info.name| + 1 < TWO_31
  {
    RecordHeader(info.offset, info.size, info.zippedSize, info.isZip, info.crc, |info.name| + 1)
  }

  /** Every record of `infos` fits its `struct` fields. */
  predicate AllPackable(infos: seq<WadFileInfo>) {
    forall i :: 0 <= i < |infos| ==> Packable(HeaderOf(infos[i]))
  }

  /** One record as written: the 21 fixed bytes, the name, a NUL. */
  function EntryBytes(info: WadFileInfo): (b: bytes)
    requires Packable(HeaderOf(info))
    ensures |b| == RECORD_SIZE + |info.name| + 1
  {
    PackRecord(HeaderOf(info)) + info.name + [0]
  }

  /** The records of `infos`, one after another. */
  function JournalBytes(infos: seq<WadFileInfo>): (b: bytes)
    requires AllPackable(infos)
    ensures b == [] <==> infos == []
    decreases |infos|
  {
    if infos == [] then []
    else
      assert AllPackable(infos[..|infos| - 1]);
      JournalBytes(infos[..|infos| - 1]) + EntryBytes(infos[|infos| - 1])
  }

  lemma {:induction false} JournalBytesAppend(a: seq<WadFileInfo>, b: seq<WadFileInfo>)
    requires AllPackable(a) && AllPackable(b)
    ensures AllPackable(a + b)
    ensures JournalBytes(a + b) == JournalBytes(a) + JournalBytes(b)
    decreases |b|
  {
    PackableAppend(a, b);
    if b == [] {
      assert a + b == a;
    } else {
      var n := |b| - 1;
      LastOfAppend(a, b);
      assert AllPackable(b[..n]);
      JournalBytesAppend(a, b[..n]);
      ConcatAssoc(JournalBytes(a), JournalBytes(b[..n]), EntryBytes(b[n]));
    }
  }

  /** The total length of the names in `infos`. */
  function InfoNamesLength(infos: seq<WadFileInfo>): nat
    decreases |infos|
  {
    if infos == [] then 0 else InfoNamesLength(infos[..|infos| - 1]) + |infos[|infos| - 1].name|
  }

  /** The records of `infos` take 22 bytes plus the name each. */
  lemma {:induction false} JournalBytesLength(infos: seq<WadFileInfo>)
    requires AllPackable(infos)
    ensures |JournalBytes(infos)| == (RECORD_SIZE + 1) * |infos| + InfoNamesLength(infos)
    decreases |infos|
  {
    if infos != [] {
      assert AllPackable(infos[..|infos| - 1]);
      JournalBytesLength(infos[..|infos| - 1]);
    }
  }

  /** The entries placed for `files` carry the files' paths as names. */
  lemma {:induction false} PlacedNamesLength(files: seq<SourceFile>, base: int, compress: Compressor)
    ensures InfoNamesLength(Place(StoreAll(files, compress), base)) == NamesLength(files)
    decreases |files|
  {
    if files != [] {
      var n := |files| - 1;
      var ss := StoreAll(files, compress);
      assert ss[..n] == StoreAll(files[..n], compress);
      var l := Place(ss, base);
      assert l[..n] == Place(ss[..n], base);
      assert l[n].name == ss[n].name == files[n].path;
      PlacedNamesLength(files[..n], base, compress);
    }
  }


  /** Every entry's offset moved by `d`. */
  function Rebase(infos: seq<WadFileInfo>, d: int): (r: seq<WadFileInfo>)
    ensures |r| == |infos|
    decreases |infos|
  {
    if infos == [] then []
    else
      var n := |infos| - 1;
      Rebase(infos[..n], d) + [infos[n].(offset := infos[n].offset + d)]
  }

  /** Files placed from 0 and moved by `d` are the files placed from `d`. */
  lemma {:induction false} PlaceRebase(ss: seq<StoredFile>, d: int)
    ensures Rebase(Place(ss, 0), d) == Place(ss, d)
    decreases |ss|
  {
    if ss != [] {
      var n := |ss| - 1;
      assert Place(ss, 0)[..n] == Place(ss[..n], 0);
      PlaceRebase(ss[..n], d);
    }
  }

  /**
   * The archive `_insert_all_fast` writes for `files` (already sorted) with
   * the data block announced at `base`: header, journal, data block; a
   * field `struct.pack` cannot hold raises.
   */
  function Image(files: seq<SourceFile>, version: int, base: int, compress: Compressor): (r: Result<bytes, PackError>)
    ensures r.Failure? ==> r.error == FieldOutOfRange
    ensures r.Success? <==> InI32(version) && InI32(|files|) && AllPackable(Place(StoreAll(files, compress), base))
    ensures r.Success? ==> JournalSize(version, files) <= |r.value|
    ensures r.Success? ==> r.value[JournalSize(version, files)..] == DataBlock(StoreAll(files, compress))
  {
    var ss := StoreAll(files, compress);
    var layout := Place(ss, base);
    if InI32(version) && InI32(|files|) && AllPackable(layout) then
      JournalSizeIsBytesWritten(files, version, base, compress);
      Success(PackHeader(version, |files|) + JournalBytes(layout) + DataBlock(ss))
    else Failure(FieldOutOfRange)
  }

  /**
   * The archive the packer means to write: none for fewer than one worker,
   * and otherwise the data block of the sorted files follows the header and
   * journal, where the records announce it.
   */
  function Pack(walk: seq<SourceFile>, version: int, workers: int, compress: Compressor): (r: Result<bytes, PackError>)
    ensures workers < 1 <==> r == Failure(BadWorkerCount)
    ensures r.Success? ==> JournalSize(version, SortByPath(walk)) <= |r.value|
    ensures r.Success? ==>
              r.value[JournalSize(version, SortByPath(walk))..] == DataBlock(StoreAll(SortByPath(walk), compress))
  {
    if workers < 1 then Failure(BadWorkerCount)
    else
      var files := SortByPath(walk);
      Image(files, version, JournalSize(version, files), compress)
  }

  /**
   * The archive `_insert_all_fast` writes, with its own `journal_size`: the
   * data block still follows the journal, but the records count their
   * offsets from `JournalSizeAsWritten`.
   */
  function PackAsWritten(walk: seq<SourceFile>, version: int, workers: int, compress: Compressor): (r: Result<bytes, PackError>)
    ensures workers < 1 <==> r == Failure(BadWorkerCount)
    ensures r.Success? ==> JournalSize(version, SortByPath(walk)) <= |r.value|
    ensures r.Success? ==>
              r.value[JournalSize(version, SortByPath(walk))..] == DataBlock(StoreAll(SortByPath(walk), compress))
  {
    if workers < 1 then Failure(BadWorkerCount)
    else
      var files := SortByPath(walk);
      Image(files, version, JournalSizeAsWritten(version, files), compress)
  }

  /** The packer's archive is the intended one for every version from 1 on. */
  lemma PackAsWrittenAgrees(walk: seq<SourceFile>, version: int, workers: int, compress: Compressor)
    requires version >= 1
    ensures PackAsWritten(walk, version, workers, compress) == Pack(walk, version, workers, compress)
  {
    JournalSizeAgrees(version, SortByPath(walk));
  }

  /** The header and journal the packer writes are exactly `JournalSize` bytes long, whatever the offsets in them. */
  lemma JournalSizeIsBytesWritten(files: seq<SourceFile>, version: int, base: int, compress: Compressor)
    requires InI32(version) && InI32(|files|) && AllPackable(Place(StoreAll(files, compress), base))
    ensures |PackHeader(version, |files|) + JournalBytes(Place(StoreAll(files, compress), base))| == JournalSize(version, files)
  {
    PlacedNamesLength(files, base, compress);
    JournalBytesLength(Place(StoreAll(files, compress), base));
  }

  /**
   * The body of `_insert_all_fast` after the directory walk: sort, size the
   * journal, split into `workers` chunks, and write. The chunks are worked
   * on one after another, in the order their futures were submitted.
   */
  method InsertAllFast(walk: seq<SourceFile>, version: int, workers: int, compress: Compressor)
    returns (r: Result<bytes, PackError>)
    ensures r == PackAsWritten(walk, version, workers, compress)
  {
    var toWrite := SortByPath(walk);
    var fileNum := |toWrite|;
    var allNamesLen := NamesLength(toWrite);
    var journalSize := 14 + 21 * fileNum + allNamesLen + fileNum;
    if version == 1 {
      journalSize := journalSize - 1;
    }
    assert journalSize == JournalSizeAsWritten(version, toWrite);
    if workers < 1 {
      return Failure(BadWorkerCount);
    }
    var chunks := Divide(workers, toWrite);
    DivideFlatten(workers, toWrite);

    var out := MAGIC;
    if !InI32(version) || !InI32(fileNum) {
      return Failure(FieldOutOfRange);
    }
    out := out + PackI32(version) + PackI32(fileNum);
    if version >= 2 {
      out := out + [1];
    }
    assert out == PackHeader(version, fileNum);
    var written := WriteChunks(chunks, journalSize, compress);
    if written.None? {
      return Failure(FieldOutOfRange);
    }
    var (journal, dataBlock) := written.value;
    return Success(out + journal + dataBlock);
  }

  /**
   * The loop over the futures in `_insert_all_fast`: each chunk's records,
   * moved by the running `chunk_offset`, go to the journal and its buffer
   * to the data block. The result is what the records and data block of
   * all the chunks' files laid out in one run from `base` would be, or
   * `None` once a record does not fit its fields.
   */
  method WriteChunks(chunks: seq<seq<SourceFile>>, base: int, compress: Compressor)
    returns (r: Option<(bytes, bytes)>)
    ensures var ss := StoreAll(Flatten(chunks), compress);
            r == if AllPackable(Place(ss, base)) then Some((JournalBytes(Place(ss, base)), DataBlock(ss))) else None
  {
    var journal: bytes := [];
    var dataBlock: bytes := [];
    var chunkOffset := base;
    ghost var done: seq<StoredFile> := [];
    assert chunks[..0] == [];
    for c := 0 to |chunks|
      invariant done == StoreAll(Flatten(chunks[..c]), compress)
      invariant chunkOffset == base + DataLength(done)
      invariant dataBlock == DataBlock(done)
      invariant AllPackable(Place(done, base))
      invariant journal == JournalBytes(Place(done, base))
    {
      var end, buffer, infos := CalculateChunk(chunks[c], 0, compress);
      ghost var chunk := StoreAll(chunks[c], compress);
      ghost var placed := Place(chunk, chunkOffset);
      PlaceRebase(chunk, chunkOffset);
      ChunkAdvance(chunks, c, base, compress, done, chunkOffset);
      DataAppend(done, chunk);
      ghost var next := done + chunk;
      var records := WriteRecords(infos, chunkOffset);
      if records.None? {
        PackableAppend(Place(done, base), placed);
        PackablePrefix(chunks, c, base, compress);
        return None;
      }
      JournalBytesAppend(Place(done, base), placed);
      assert journal + records.value == JournalBytes(Place(next, base));
      journal := journal + records.value;
      done := next;
      chunkOffset := chunkOffset + end;
      dataBlock := dataBlock + buffer;
    }
    assert chunks[..|chunks|] == chunks;
    return Some((journal, dataBlock));
  }

  /**
   * The inner loop of `_insert_all_fast`: each entry of a chunk packed as a
   * record, its offset moved by `chunkOffset`, with its name and a NUL;
   * `None` where `struct.pack` raises.
   */
  method WriteRecords(infos: seq<WadFileInfo>, chunkOffset: int) returns (r: Option<bytes>)
    ensures var moved := Rebase(infos, chunkOffset);
            r == if AllPackable(moved) then Some(JournalBytes(moved)) else None
  {
    ghost var moved := Rebase(infos, chunkOffset);
    var out: bytes := [];
    for k := 0 to |infos|
      invariant AllPackable(moved[..k])
      invariant out == JournalBytes(moved[..k])
    {
      var info := infos[k];
      var h := RecordHeader(info.offset + chunkOffset, info.size, info.zippedSize, info.isZip, info.crc, |info.name| + 1);
      RebaseAt(infos, chunkOffset, k);
      assert h == HeaderOf(moved[k]);
      if !Packable(h) {
        assert !AllPackable(moved) by {
          assert !Packable(HeaderOf(moved[k]));
        }
        return None;
      }
      var entry := PackRecord(h) + info.name + [0];
      assert entry == EntryBytes(moved[k]);
      JournalBytesSnoc(moved, k);
      out := out + entry;
    }
    assert moved[..|infos|] == moved;
    return Some(out);
  }

  /** Chunk `c` follows the chunks before it: its files are prepared and placed from where their data ends. */
  lemma ChunkAdvance(chunks: seq<seq<SourceFile>>, c: nat, base: int, compress: Compressor, done: seq<StoredFile>, offset: int)
    requires c < |chunks| && done == StoreAll(Flatten(chunks[..c]), compress)
    requires offset == base + DataLength(done)
    ensures var chunk := StoreAll(chunks[c], compress);
            var next := done + chunk;
            StoreAll(Flatten(chunks[..c + 1]), compress) == next &&
            Place(next, base) == Place(done, base) + Place(chunk, offset)
  {
    ChunkStep(chunks, c, compress);
    PlaceAppendAt(done, StoreAll(chunks[c], compress), base, offset);
  }

  lemma PlaceAppendAt(a: seq<StoredFile>, b: seq<StoredFile>, base: int, offset: int)
    requires offset == base + DataLength(a)
    ensures Place(a + b, base) == Place(a, base) + Place(b, offset)
  {
    PlaceAppend(a, b, base);
  }

  /** Records fit their fields in `a + b` exactly when they do in both. */
  lemma PackableAppend(a: seq<WadFileInfo>, b: seq<WadFileInfo>)
    ensures AllPackable(a + b) <==> AllPackable(a) && AllPackable(b)
  {
    assert forall i :: 0 <= i < |a + b| ==> (a + b)[i] == if i < |a| then a[i] else b[i - |a|];
    if AllPackable(a + b) {
      forall i | 0 <= i < |b| ensures Packable(HeaderOf(b[i])) {
        assert (a + b)[|a| + i] == b[i];
      }
    }
  }

  /** If the whole layout fits, so does the part for the first `c + 1` chunks. */
  lemma PackablePrefix(chunks: seq<seq<SourceFile>>, c: nat, base: int, compress: Compressor)
    requires c < |chunks|
    ensures AllPackable(Place(StoreAll(Flatten(chunks), compress), base)) ==>
              AllPackable(Place(StoreAll(Flatten(chunks[..c + 1]), compress), base))
  {
    var front := Flatten(chunks[..c + 1]);
    var back := Flatten(chunks[c + 1..]);
    assert chunks == chunks[..c + 1] + chunks[c + 1..];
    FlattenAppend(chunks[..c + 1], chunks[c + 1..]);
    StoreAllAppend(front, back, compress);
    PlacePrefixPackable(StoreAll(front, compress), StoreAll(back, compress), base);
  }

  /** The entries of a prefix are a prefix of the entries. */
  lemma PlacePrefixPackable(a: seq<StoredFile>, b: seq<StoredFile>, base: int)
    ensures AllPackable(Place(a + b, base)) ==> AllPackable(Place(a, base))
  {
    PlaceAppend(a, b, base);
    PackableAppend(Place(a, base), Place(b, base + DataLength(a)));
  }


  /** Entry `i` moved by `d`. */
  lemma {:induction false} RebaseAt(infos: seq<WadFileInfo>, d: int, i: nat)
    requires i < |infos|
    ensures Rebase(infos, d)[i] == infos[i].(offset := infos[i].offset + d)
    decreases |infos|
  {
    if i < |infos| - 1 {
      RebaseAt(infos[..|infos| - 1], d, i);
    }
  }

  /** One more record. */
  lemma JournalBytesSnoc(infos: seq<WadFileInfo>, k: nat)
    requires k < |infos| && AllPackable(infos[..k]) && Packable(HeaderOf(infos[k]))
    ensures AllPackable(infos[..k + 1])
    ensures JournalBytes(infos[..k + 1]) == JournalBytes(infos[..k]) + EntryBytes(infos[k])
  {
    assert infos[..k + 1][..k] == infos[..k];
  }

  /** The files of the first `c + 1` chunks, prepared: those of the first `c`, then those of chunk `c`. */
  lemma ChunkStep(chunks: seq<seq<SourceFile>>, c: nat, compress: Compressor)
    requires c < |chunks|
    ensures StoreAll(Flatten(chunks[..c + 1]), compress) == StoreAll(Flatten(chunks[..c]), compress) + StoreAll(chunks[c], compress)
  {
    FlattenSnoc(chunks, c);
    StoreAllAppend(Flatten(chunks[..c]), chunks[c], compress);
  }

}
