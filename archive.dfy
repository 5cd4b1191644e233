/**
 * The packer and the reader together: `from_full_add` writes a KIWAD with
 * `_insert_all_fast` and opens it again. Parsing what the packer writes
 * gives back the journal it laid out; with the data block announced where
 * the journal ends every entry's stored bytes sit where its record says,
 * so `read` and `_extract_all` give back each file's contents. With the
 * packer's own `journal_size` for versions below 1 the data block is
 * announced one byte late.
 */
module Archive {
  import opened Wrappers
  import opened Bytes
  import opened Format
  import opened FileMap
  import opened Journal
  import opened Paths
  import opened Packer

  /** A name whose last byte is NUL would lose it to `rstrip("\x00")` when read back. */
  predicate EndsInNul(name: Name) {
    name != [] && name[|name| - 1] == 0
  }

  /** No path ends in NUL, as none does in a directory walk. */
  predicate NoNulEndings(files: seq<SourceFile>) {
    forall i :: 0 <= i < |files| ==> !EndsInNul(files[i].path)
  }

  /** `b` occurs in `data` starting at `start`, compared byte by byte from its end. */
  predicate At(data: bytes, start: int, b: bytes)
    decreases |b|
  {
    0 <= start && start + |b| <= |data|
    && (b == [] || (At(data, start, b[..|b| - 1]) && data[start + |b| - 1] == b[|b| - 1]))
  }

  /** `b` occurs at `start` exactly when the slice of `data` there is `b`. */
  lemma {:induction false} AtIsSlice(data: bytes, start: int, b: bytes)
    ensures At(data, start, b) <==> 0 <= start && start + |b| <= |data| && data[start..start + |b|] == b
    decreases |b|
  {
    if b != [] && 0 <= start && start + |b| <= |data| {
      var n := |b| - 1;
      AtIsSlice(data, start, b[..n]);
      var s := data[start..start + |b|];
      assert s == s[..n] + [s[n]] && b == b[..n] + [b[n]];
      assert s[..n] == data[start..start + n];
    }
  }

  lemma AtSplit(data: bytes, start: int, x: bytes, y: bytes)
    requires At(data, start, x + y)
    ensures At(data, start, x) && At(data, start + |x|, y)
  {
    AtIsSlice(data, start, x + y);
    AtIsSlice(data, start, x);
    AtIsSlice(data, start + |x|, y);
    var whole := data[start..start + |x| + |y|];
    assert data[start..start + |x|] == whole[..|x|];
    assert data[start + |x|..start + |x| + |y|] == whole[|x|..];
  }

  lemma AtMiddle(x: bytes, y: bytes, z: bytes)
    ensures At(x + y + z, |x|, y)
  {
    AtIsSlice(x + y + z, |x|, y);
    assert (x + y + z)[|x|..|x| + |y|] == y;
  }

  /** Where `x + y` occurs, the reader's slices there give `x` and then `y`. */
  lemma SlicesAt(data: bytes, cursor: int, x: bytes, y: bytes)
    requires At(data, cursor, x + y)
    ensures PySlice(data, cursor, cursor + |x|) == x
    ensures PySlice(data, cursor + |x|, cursor + |x| + |y|) == y
  {
    AtSplit(data, cursor, x, y);
    AtIsSlice(data, cursor, x);
    AtIsSlice(data, cursor + |x|, y);
  }

  lemma AtFront(x: bytes, y: bytes, z: bytes)
    ensures At(x + y + z, 0, x)
  {
    AtIsSlice(x + y + z, 0, x);
    assert (x + y + z)[0..|x|] == x;
  }

  /** The NUL the packer writes after a name is the only one the reader strips. */
  lemma StripOneNul(name: Name)
    requires !EndsInNul(name)
    ensures StripNul(name + [0]) == name
  {
    assert (name + [0])[..|name|] == name;
  }

  lemma EntryPieces(info: WadFileInfo)
    requires Packable(HeaderOf(info))
    ensures EntryBytes(info) == PackRecord(HeaderOf(info)) + (info.name + [0])
  {
  }

  /** The slices the reader takes at a record written for `info`: its 21 header bytes, then its name and NUL. */
  lemma EntrySlices(data: bytes, cursor: int, info: WadFileInfo)
    requires Packable(HeaderOf(info))
    requires At(data, cursor, EntryBytes(info))
    ensures PySlice(data, cursor, cursor + RECORD_SIZE) == PackRecord(HeaderOf(info))
    ensures PySlice(data, cursor + RECORD_SIZE, cursor + RECORD_SIZE + HeaderOf(info).nameLength) == info.name + [0]
  {
    EntryPieces(info);
    SlicesAt(data, cursor, PackRecord(HeaderOf(info)), info.name + [0]);
  }

  /** A record written for `info` is read back as `info`, the cursor moving past its name and NUL. */
  lemma ParseEntry(data: bytes, cursor: int, info: WadFileInfo, next: int)
    requires Packable(HeaderOf(info)) && !EndsInNul(info.name)
    requires At(data, cursor, EntryBytes(info))
    requires next == cursor + RECORD_SIZE + |info.name| + 1
    ensures ParseRecord(data, cursor) == Success((JournalRecord(HeaderOf(info), info.name), next))
  {
    var h := HeaderOf(info);
    EntrySlices(data, cursor, info);
    RecordRoundTrip(h);
    StripOneNul(info.name);
    ParseRecordFrom(data, cursor, PackRecord(h), info.name + [0], h, info.name, next);
  }

  /** Bytes found at `start` are found there byte for byte up to any prefix. */
  lemma AtPrefix(data: bytes, start: int, a: bytes, b: bytes)
    requires At(data, start, b) && a <= b
    ensures At(data, start, a)
  {
    AtIsSlice(data, start, b);
    AtIsSlice(data, start, a);
    assert data[start..start + |a|] == b[..|a|];
  }

  /** Where `whole` occurs, so does every piece of a prefix of it. */
  lemma AtInside(data: bytes, start: int, whole: bytes, front: bytes, piece: bytes)
    requires At(data, start, whole) && front + piece <= whole
    ensures At(data, start + |front|, piece)
  {
    AtPrefix(data, start, front + piece, whole);
    AtSplit(data, start, front, piece);
  }

  lemma PrefixOfLonger<T>(a: seq<T>, e: seq<T>, c: seq<T>)
    requires a + e <= c
    ensures a <= c
  {
    assert c[..|a|] == (a + e)[..|a|] == a;
  }

  /** The records of the first `j` entries begin the records of all of them. */
  lemma {:induction false} JournalBytesPrefix(infos: seq<WadFileInfo>, j: nat)
    requires AllPackable(infos) && j <= |infos|
    ensures AllPackable(infos[..j]) && JournalBytes(infos[..j]) <= JournalBytes(infos)
    decreases |infos| - j
  {
    if j == |infos| {
      assert infos[..j] == infos;
    } else {
      JournalBytesPrefix(infos, j + 1);
      assert AllPackable(infos[..j]);
      JournalBytesSnoc(infos, j);
      PrefixOfLonger(JournalBytes(infos[..j]), EntryBytes(infos[j]), JournalBytes(infos));
    }
  }

  /** The records of all of `infos` begin with those of the first `k`, then record `k`. */
  lemma JournalBytesSplit(infos: seq<WadFileInfo>, k: nat)
    requires AllPackable(infos) && k < |infos|
    ensures AllPackable(infos[..k])
    ensures JournalBytes(infos[..k]) + EntryBytes(infos[k]) <= JournalBytes(infos)
  {
    JournalBytesPrefix(infos, k + 1);
    assert AllPackable(infos[..k]);
    JournalBytesSnoc(infos, k);
  }

  /** Where the records of `infos` are written from `start`, record `k` follows the `k` before it. */
  lemma RecordWrittenAt(data: bytes, start: int, infos: seq<WadFileInfo>, k: nat)
    requires AllPackable(infos) && k < |infos|
    requires At(data, start, JournalBytes(infos))
    ensures AllPackable(infos[..k])
    ensures At(data, start + |JournalBytes(infos[..k])|, EntryBytes(infos[k]))
  {
    JournalBytesSplit(infos, k);
    AtInside(data, start, JournalBytes(infos), JournalBytes(infos[..k]), EntryBytes(infos[k]));
  }

  /** The cursor after the record of `infos[k]`, the records being written from `start`. */
  function RecordEnd(start: int, infos: seq<WadFileInfo>, k: nat): int
    requires AllPackable(infos) && k < |infos|
  {
    assert AllPackable(infos[..k + 1]);
    start + |JournalBytes(infos[..k + 1])|
  }

  /** Record `k` of `infos`, written from `start`, is read back where the ones before it end. */
  lemma ReadRecordWritten(data: bytes, start: int, infos: seq<WadFileInfo>, ends: seq<int>, k: nat)
    requires AllPackable(infos) && k < |infos| && !EndsInNul(infos[k].name)
    requires At(data, start, JournalBytes(infos))
    requires |ends| == |infos| && forall j :: 0 <= j < |infos| ==> ends[j] == RecordEnd(start, infos, j)
    ensures ParseRecord(data, Before(start, ends, k)) == Success((JournalRecord(HeaderOf(infos[k]), infos[k].name), ends[k]))
  {
    RecordWrittenAt(data, start, infos, k);
    JournalBytesSnoc(infos, k);
    if k == 0 {
      assert infos[..k] == [];
    }
    assert Before(start, ends, k) == start + |JournalBytes(infos[..k])|;
    ParseEntry(data, Before(start, ends, k), infos[k], ends[k]);
  }

  /** The journal loop started where the records of `infos` were written reads them back one by one. */
  lemma ReadRecordsWritten(data: bytes, start: int, infos: seq<WadFileInfo>, rs: seq<JournalRecord>, ends: seq<int>)
    requires AllPackable(infos)
    requires forall k :: 0 <= k < |infos| ==> !EndsInNul(infos[k].name)
    requires At(data, start, JournalBytes(infos))
    requires |rs| == |infos| && forall k :: 0 <= k < |infos| ==> rs[k] == JournalRecord(HeaderOf(infos[k]), infos[k].name)
    requires |ends| == |infos| && forall k :: 0 <= k < |infos| ==> ends[k] == RecordEnd(start, infos, k)
    ensures ParseRecords(data, start, |infos|) == Success((rs, start + |JournalBytes(infos)|))
  {
    forall k {:trigger Before(start, ends, k)} | 0 <= k < |infos|
      ensures ParseRecord(data, Before(start, ends, k)) == Success((rs[k], ends[k]))
    {
      ReadRecordWritten(data, start, infos, ends, k);
    }
    if infos != [] {
      assert infos[..|infos|] == infos;
    }
    ParseRecordsChain(data, start, |infos|, rs, ends, start + |JournalBytes(infos)|);
  }

  /** The journal loop started where the records of `infos` were written reads back `infos`. */
  lemma ParseEntries(data: bytes, start: int, infos: seq<WadFileInfo>) returns (rs: seq<JournalRecord>)
    requires AllPackable(infos)
    requires forall k :: 0 <= k < |infos| ==> !EndsInNul(infos[k].name)
    requires At(data, start, JournalBytes(infos))
    ensures ParseRecords(data, start, |infos|) == Success((rs, start + |JournalBytes(infos)|))
    ensures Infos(rs) == infos
  {
    rs := seq(|infos|, k requires 0 <= k < |infos| => JournalRecord(HeaderOf(infos[k]), infos[k].name));
    var ends := seq(|infos|, k requires 0 <= k < |infos| => RecordEnd(start, infos, k));
    ReadRecordsWritten(data, start, infos, rs, ends);
    assert Infos(rs) == infos;
  }

  /** An entry carries its prepared file's name, sizes, flag and checksum; only its offset depends on the files before it. */
  lemma PlaceFields(ss: seq<StoredFile>, base: int, i: nat)
    requires i < |ss|
    ensures var info := Place(ss, base)[i];
            && info.name == ss[i].name && info.isZip == ss[i].isZip && info.crc == ss[i].crc
            && info.size == ss[i].size && info.zippedSize == ss[i].zippedSize
  {
    PlaceAt(ss, base, i);
  }

  /** The journal entry of a packed file carries the file's path. */
  lemma PlaceName(files: seq<SourceFile>, base: int, compress: Compressor, i: nat)
    requires i < |files|
    ensures Place(StoreAll(files, compress), base)[i].name == files[i].path
  {
    var ss := StoreAll(files, compress);
    PlaceFields(ss, base, i);
    assert ss[i] == Store(files[i], compress);
  }

  /** The journal entries of packed files carry the files' paths, in order. */
  lemma PlaceNames(files: seq<SourceFile>, base: int, compress: Compressor)
    ensures forall i :: 0 <= i < |files| ==> Place(StoreAll(files, compress), base)[i].name == files[i].path
  {
    forall i | 0 <= i < |files| {
      PlaceName(files, base, compress, i);
    }
  }

  /** The version and file count the reader takes from bytes 5 to 13 are the ones the packer wrote. */
  lemma HeaderReadBack(image: bytes, version: int, fileNum: int)
    requires InI32(version) && InI32(fileNum)
    requires At(image, 0, PackHeader(version, fileNum))
    ensures |PySlice(image, 5, 13)| == 8
    ensures UnpackI32(PySlice(image, 5, 13), 0) == version
    ensures UnpackI32(PySlice(image, 5, 13), 4) == fileNum
  {
    var header := PackHeader(version, fileNum);
    AtIsSlice(image, 0, header);
    assert image[5..13] == header[5..13];
    assert PySlice(image, 5, 13)[0..4] == PackI32(version);
    assert PySlice(image, 5, 13)[4..8] == PackI32(fileNum);
    UnpackU32Slice(PySlice(image, 5, 13), 0, PackI32(version));
    UnpackU32Slice(PySlice(image, 5, 13), 4, PackI32(fileNum));
    I32RoundTrip(version);
    I32RoundTrip(fileNum);
  }

  /**
   * Reading the journal of a packed image back (`_refresh_journal` on what
   * `_insert_all_fast` wrote) gives back its version, its file count and
   * the journal the packer laid out, and the header and journal end
   * `JournalSize` bytes in.
   */
  lemma ParseImage(files: seq<SourceFile>, version: int, base: int, compress: Compressor)
    requires Image(files, version, base, compress).Success?
    requires NoNulEndings(files)
    ensures var p := ParseJournal(Image(files, version, base, compress).value);
            && p.Success?
            && p.value.version == version
            && p.value.fileNum == |files|
            && Infos(p.value.records) == Place(StoreAll(files, compress), base)
            && p.value.end == JournalSize(version, files)
  {
    var ss := StoreAll(files, compress);
    var layout := Place(ss, base);
    PlaceNames(files, base, compress);
    var header := PackHeader(version, |files|);
    AtFront(header, JournalBytes(layout), DataBlock(ss));
    AtMiddle(header, JournalBytes(layout), DataBlock(ss));
    HeaderReadBack(Image(files, version, base, compress).value, version, |files|);
    var records := ParseEntries(Image(files, version, base, compress).value, HeaderSize(version), layout);
    ParseJournalFrom(Image(files, version, base, compress).value, version, |files|, |files|,
                     ParseRecords(Image(files, version, base, compress).value, HeaderSize(version), |files|));
    JournalSizeIsBytesWritten(files, version, base, compress);
  }

  /** A piece of `block` at `at` is the reader's slice of `front + block` shifted by `|front|`. */
  lemma SliceBeyond(front: bytes, block: bytes, at: int, len: int, piece: bytes)
    requires 0 <= at && 0 <= len && at + len <= |block| && block[at..at + len] == piece
    ensures PySlice(front + block, |front| + at, |front| + at + len) == piece
  {
    var whole := front + block;
    assert whole[|front| + at..|front| + at + len] == block[at..at + len];
  }

  /** The data block right after `front`, with entries placed from `|front|`: each entry's slice is its stored bytes. */
  lemma SliceAfter(front: bytes, ss: seq<StoredFile>, i: nat)
    requires i < |ss| && StoredLength(ss[i]) == |ss[i].data|
    ensures StoredSlice(front + DataBlock(ss), Place(ss, |front|)[i]) == ss[i].data
  {
    PlaceLocatesData(ss, |front|, i);
    SliceAt(front, DataBlock(ss), Place(ss, |front|)[i], ss[i]);
  }

  /** A record announcing the length of `s`'s stored bytes, placed where they sit in the block after `front`, reads them. */
  lemma SliceAt(front: bytes, block: bytes, info: WadFileInfo, s: StoredFile)
    requires StoredLength(s) == |s.data| && Locates(block, |front|, info, s)
    ensures StoredSlice(front + block, info) == s.data
  {
    SliceBeyond(front, block, info.offset - |front|, |s.data|, s.data);
  }

  /** With the data block announced where the journal ends, every record points at its file's stored bytes. */
  lemma PackedSlice(files: seq<SourceFile>, version: int, compress: Compressor, i: nat)
    requires Image(files, version, JournalSize(version, files), compress).Success?
    requires i < |files|
    ensures StoredSlice(Image(files, version, JournalSize(version, files), compress).value,
                        Place(StoreAll(files, compress), JournalSize(version, files))[i])
            == Store(files[i], compress).data
  {
    var base := JournalSize(version, files);
    var ss := StoreAll(files, compress);
    var front := PackHeader(version, |files|) + JournalBytes(Place(ss, base));
    assert Image(files, version, base, compress).value == front + DataBlock(ss);
    JournalSizeIsBytesWritten(files, version, base, compress);
    assert ss[i] == Store(files[i], compress);
    SliceAfter(front, ss, i);
  }

  /** `decompress` undoes `compress` on the contents of every file that is compressed. */
  predicate Inverts(compress: Compressor, decompress: Decompressor, files: seq<SourceFile>) {
    forall i :: 0 <= i < |files| ==>
      IsZip(files[i].path) ==> decompress(compress(files[i].contents)) == Some(files[i].contents)
  }

  /**
   * What reading a packed file gives back: its contents, or nothing when its
   * stored bytes happen to begin with four zero bytes and so look like an
   * "unpatched" placeholder.
   */
  function Restored(f: SourceFile, compress: Compressor): Option<bytes> {
    if IsUnpatched(Store(f, compress).data) then None else Some(f.contents)
  }

  /** Reading an entry whose slice holds a prepared file's stored bytes gives back the file's contents. */
  lemma ReadStored(data: bytes, info: WadFileInfo, f: SourceFile, compress: Compressor, decompress: Decompressor)
    requires StoredSlice(data, info) == Store(f, compress).data && info.isZip == IsZip(f.path)
    requires IsZip(f.path) ==> decompress(compress(f.contents)) == Some(f.contents)
    ensures ReadEntry(data, info, decompress) == Success(Restored(f, compress))
    ensures ExtractContent(data, info, decompress) ==
              Success(if Restored(f, compress).Some? then f.contents else [])
  {
    var isZip := IsZip(f.path);
    var stored := if isZip then compress(f.contents) else f.contents;
    assert StoredSlice(data, info) == stored;
  }

  /** `read` on a packed archive gives back each file's contents. */
  lemma ReadPacked(files: seq<SourceFile>, version: int, compress: Compressor, decompress: Decompressor, i: nat)
    requires Image(files, version, JournalSize(version, files), compress).Success?
    requires i < |files| && Inverts(compress, decompress, files)
    ensures var image := Image(files, version, JournalSize(version, files), compress).value;
            var info := Place(StoreAll(files, compress), JournalSize(version, files))[i];
            && ReadEntry(image, info, decompress) == Success(Restored(files[i], compress))
            && ExtractContent(image, info, decompress) ==
                 Success(if Restored(files[i], compress).Some? then files[i].contents else [])
  {
    var ss := StoreAll(files, compress);
    var base := JournalSize(version, files);
    PackedSlice(files, version, compress, i);
    PlaceFields(ss, base, i);
    assert ss[i] == Store(files[i], compress);
    ReadStored(Image(files, version, base, compress).value, Place(ss, base)[i], files[i], compress, decompress);
  }

  /** The (path, content) pairs `_extract_all` writes for packed files. */
  function Unpacked(files: seq<SourceFile>, compress: Compressor): (r: seq<(Name, bytes)>)
    ensures |r| == |files|
  {
    seq(|files|, i requires 0 <= i < |files| =>
      (files[i].path, if Restored(files[i], compress).Some? then files[i].contents else []))
  }

  /** Extracting entries that each give back the content paired with their name writes exactly those pairs. */
  lemma ExtractGiven(data: bytes, infos: seq<WadFileInfo>, out: seq<(Name, bytes)>, decompress: Decompressor)
    requires |infos| == |out|
    requires forall i :: 0 <= i < |infos| ==>
               infos[i].name == out[i].0 && ExtractContent(data, infos[i], decompress) == Success(out[i].1)
    ensures ExtractEntries(data, infos, decompress) == Success(out)
  {
    ExtractEntriesContents(data, infos, decompress);
    assert forall i :: 0 <= i < |infos| ==> ExtractContent(data, infos[i], decompress).Success?;
    var written := ExtractEntries(data, infos, decompress).value;
    assert |written| == |out|;
    assert forall i :: 0 <= i < |infos| ==> written[i] == out[i];
    assert written == out;
  }

  /** Extracting the whole packed journal writes every file under its path, in order. */
  lemma ExtractPacked(files: seq<SourceFile>, version: int, compress: Compressor, decompress: Decompressor)
    requires Image(files, version, JournalSize(version, files), compress).Success?
    requires Inverts(compress, decompress, files)
    ensures ExtractEntries(Image(files, version, JournalSize(version, files), compress).value,
                           Place(StoreAll(files, compress), JournalSize(version, files)), decompress)
            == Success(Unpacked(files, compress))
  {
    var image := Image(files, version, JournalSize(version, files), compress).value;
    var layout := Place(StoreAll(files, compress), JournalSize(version, files));
    var out := Unpacked(files, compress);
    forall i | 0 <= i < |files|
      ensures layout[i].name == out[i].0 && ExtractContent(image, layout[i], decompress) == Success(out[i].1)
    {
      ReadPacked(files, version, compress, decompress, i);
      PlaceName(files, JournalSize(version, files), compress, i);
    }
    ExtractGiven(image, layout, out, decompress);
  }

  /** Sorting moves files about and so keeps every path free of a trailing NUL. */
  lemma SortKeepsNoNulEndings(walk: seq<SourceFile>)
    requires NoNulEndings(walk)
    ensures NoNulEndings(SortByPath(walk))
  {
    var files := SortByPath(walk);
    forall i | 0 <= i < |files|
      ensures !EndsInNul(files[i].path)
    {
      assert files[i] in multiset(walk);
      var k := InMultiset(files[i], walk);
    }
  }

  /** Distinct paths give distinct names in the journal. */
  lemma PlacedNamesDistinct(files: seq<SourceFile>, base: int, compress: Compressor)
    requires DistinctPaths(files)
    ensures DistinctNames(Place(StoreAll(files, compress), base))
  {
    PlaceNames(files, base, compress);
  }

  /** The paths of `files`, in order. */
  function PathsOf(files: seq<SourceFile>): (r: seq<Name>)
    ensures |r| == |files|
  {
    seq(|files|, i requires 0 <= i < |files| => files[i].path)
  }

  /**
   * `from_full_add` once its checks on the two paths have passed: pack the
   * walked files with `_insert_all_fast`, then open what was written. The
   * opened archive lists the packer's entries, in path order.
   */
  method FromFullAdd(walk: seq<SourceFile>, version: int, workers: int, compress: Compressor)
    returns (r: Result<Wad, PackError>)
    requires NoNulEndings(walk) && DistinctPaths(walk)
    ensures r.Success? <==> PackAsWritten(walk, version, workers, compress).Success?
    ensures r.Failure? ==> r.error == PackAsWritten(walk, version, workers, compress).error
    ensures r.Success? ==> fresh(r.value) && r.value.Valid() && r.value.sizeCache == None
    ensures r.Success? ==> r.value.data == PackAsWritten(walk, version, workers, compress).value
    ensures r.Success? ==>
              r.value.InfoList() == Place(StoreAll(SortByPath(walk), compress), JournalSizeAsWritten(version, SortByPath(walk)))
    ensures r.Success? ==> r.value.NameList() == PathsOf(SortByPath(walk))
  {
    var packed := InsertAllFast(walk, version, workers, compress);
    if packed.Failure? {
      return Failure(packed.error);
    }
    var files := SortByPath(walk);
    var base := JournalSizeAsWritten(version, files);
    var layout := Place(StoreAll(files, compress), base);
    SortKeepsNoNulEndings(walk);
    SortByPathDistinct(walk);
    ParseImage(files, version, base, compress);
    PlacedNamesDistinct(files, base, compress);
    InsertAllDistinct(layout);
    PlaceNames(files, base, compress);
    assert Names(layout) == PathsOf(files);
    var wad := Open(packed.value);
    if wad.Failure? {
      assert false;
    }
    return Success(wad.value);
  }

  /** An entry announced one byte past where its stored bytes `d` start, at the end of the image, reads `d` less its first byte. */
  lemma SliceOneLate(front: bytes, d: bytes, info: WadFileInfo)
    requires info.offset == |front| + 1
    requires (if info.isZip then info.zippedSize else info.size) == |d|
    ensures StoredSlice(front + d, info) == if d == [] then [] else d[1..]
  {
    var image := front + d;
    if d != [] {
      assert image[|front| + 1..] == d[1..];
    }
  }

  /**
   * With `_insert_all_fast`'s own `journal_size` below version 1, the data
   * block is announced one byte after it starts: the last file's record
   * gives its stored bytes without the first one.
   */
  lemma LastEntryShortAsWritten(files: seq<SourceFile>, version: int, compress: Compressor)
    requires version <= 0 && files != []
    requires Image(files, version, JournalSizeAsWritten(version, files), compress).Success?
    ensures var ss := StoreAll(files, compress);
            var n := |files| - 1;
            StoredSlice(Image(files, version, JournalSizeAsWritten(version, files), compress).value,
                        Place(ss, JournalSizeAsWritten(version, files))[n])
            == if ss[n].data == [] then [] else ss[n].data[1..]
  {
    var ss := StoreAll(files, compress);
    var n := |files| - 1;
    var base := JournalSizeAsWritten(version, files);
    var front := PackHeader(version, |files|) + JournalBytes(Place(ss, base));
    assert Image(files, version, base, compress).value == front + DataBlock(ss);
    JournalSizeIsBytesWritten(files, version, base, compress);
    JournalSizeOffByOne(version, files);
    PlaceAt(ss, base, n);
    assert ss[n] == Store(files[n], compress);
    assert DataBlock(ss) == DataBlock(ss[..n]) + ss[n].data;
    ConcatAssoc(front, DataBlock(ss[..n]), ss[n].data);
    SliceOneLate(front + DataBlock(ss[..n]), ss[n].data, Place(ss, base)[n]);
  }

  /** The archive does not depend on the order in which the directory walk lists the files. */
  lemma PackIgnoresWalkOrder(walk: seq<SourceFile>, walk': seq<SourceFile>, version: int, workers: int, compress: Compressor)
    requires multiset(walk') == multiset(walk) && DistinctPaths(walk)
    ensures Pack(walk', version, workers, compress) == Pack(walk, version, workers, compress)
    ensures PackAsWritten(walk', version, workers, compress) == PackAsWritten(walk, version, workers, compress)
  {
    SortByPathSorted(walk);
    SortByPathSorted(walk');
    SortByPathDistinct(walk);
    SortedUnique(SortByPath(walk), SortByPath(walk'));
  }

  /** No packed file's stored bytes begin with four zero bytes, so none is taken for a placeholder. */
  predicate NoPlaceholders(files: seq<SourceFile>, compress: Compressor) {
    forall i :: 0 <= i < |files| ==> !IsUnpatched(Store(files[i], compress).data)
  }

  /** The files `_extract_all` leaves in the target directory, as the next walk finds them. */
  function AsFiles(out: seq<(Name, bytes)>): (r: seq<SourceFile>)
    ensures |r| == |out|
  {
    seq(|out|, i requires 0 <= i < |out| => SourceFile(out[i].0, out[i].1))
  }

  /** What `info_list()` gives on the archive `data` once its journal is read. */
  function ListedInfos(data: bytes): seq<WadFileInfo>
    requires ParseJournal(data).Success?
  {
    Values(InsertAll(EMPTY, Infos(ParseJournal(data).value.records)))
  }

  /** Without placeholders, extraction writes every file back under its path with its contents. */
  lemma UnpackedFiles(files: seq<SourceFile>, compress: Compressor)
    requires NoPlaceholders(files, compress)
    ensures AsFiles(Unpacked(files, compress)) == files
  {
    var r := AsFiles(Unpacked(files, compress));
    forall i | 0 <= i < |files| ensures r[i] == files[i] {
      assert Restored(files[i], compress) == Some(files[i].contents);
    }
  }

  /**
   * Packing a directory, opening the archive, extracting it and packing the
   * extracted directory again gives the same archive, byte for byte, when
   * `decompress` undoes `compress` and no file is taken for a placeholder.
   */
  lemma RepackReproducesArchive(walk: seq<SourceFile>, version: int, workers: int,
                                compress: Compressor, decompress: Decompressor)
    requires NoNulEndings(walk) && DistinctPaths(walk)
    requires Pack(walk, version, workers, compress).Success?
    requires Inverts(compress, decompress, SortByPath(walk)) && NoPlaceholders(SortByPath(walk), compress)
    ensures var image := Pack(walk, version, workers, compress).value;
            && ParseJournal(image).Success?
            && ListedInfos(image) == Place(StoreAll(SortByPath(walk), compress), JournalSize(version, SortByPath(walk)))
            && ExtractEntries(image, ListedInfos(image), decompress).Success?
            && var extracted := AsFiles(ExtractEntries(image, ListedInfos(image), decompress).value);
               && extracted == SortByPath(walk)
               && Pack(extracted, version, workers, compress) == Pack(walk, version, workers, compress)
  {
    var files := SortByPath(walk);
    var base := JournalSize(version, files);
    SortKeepsNoNulEndings(walk);
    SortByPathDistinct(walk);
    SortByPathSorted(walk);
    ParseImage(files, version, base, compress);
    PlacedNamesDistinct(files, base, compress);
    InsertAllDistinct(Place(StoreAll(files, compress), base));
    ExtractPacked(files, version, compress, decompress);
    UnpackedFiles(files, compress);
    SortByPathOfSorted(files);
  }

  /**
   * The round trip the repository's tests check: pack a directory, extract
   * the archive into a fresh directory, pack that again; the two archives
   * list the same entries and hold the same bytes.
   */
  method RemakeWad(walk: seq<SourceFile>, version: int, workers: int, compress: Compressor, decompress: Decompressor)
    returns (r: Result<(Wad, Wad), PackError>)
    requires version >= 1 && NoNulEndings(walk) && DistinctPaths(walk)
    requires Inverts(compress, decompress, SortByPath(walk)) && NoPlaceholders(SortByPath(walk), compress)
    ensures r.Success? <==> PackAsWritten(walk, version, workers, compress).Success?
    ensures r.Failure? ==> r.error == PackAsWritten(walk, version, workers, compress).error
    ensures r.Success? ==> r.value.0.Valid() && r.value.1.Valid()
    ensures r.Success? ==> r.value.1.data == r.value.0.data
    ensures r.Success? ==> r.value.1.InfoList() == r.value.0.InfoList()
  {
    var first := FromFullAdd(walk, version, workers, compress);
    if first.Failure? {
      return Failure(first.error);
    }
    var wad := first.value;
    PackAsWrittenAgrees(walk, version, workers, compress);
    RepackReproducesArchive(walk, version, workers, compress, decompress);
    var extracted := wad.ExtractAll(decompress);
    if extracted.Failure? {
      assert false;
    }
    var files := AsFiles(extracted.value);
    SortKeepsNoNulEndings(walk);
    SortByPathDistinct(walk);
    PackAsWrittenAgrees(files, version, workers, compress);
    var second := FromFullAdd(files, version, workers, compress);
    if second.Failure? {
      assert false;
    }
    SortByPathSorted(walk);
    SortByPathOfSorted(files);
    return Success((wad, second.value));
  }
}
