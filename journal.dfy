/**
 * The reader: `Wad._refresh_journal` walks the header and the journal with
 * a cursor and files every record in the name map; `read`, `get_info` and
 * `_extract_all` slice an entry's stored bytes out of the archive and
 * decompress them unless they are an "unpatched" placeholder.
 */
module Journal {
  import opened Wrappers
  import opened Bytes
  import opened Format
  import opened FileMap

  /** One record as parsed: its fixed-width fields and its name with trailing NULs stripped. */
  datatype JournalRecord = JournalRecord(header: RecordHeader, name: Name)

  function InfoOf(r: JournalRecord): WadFileInfo {
    WadFileInfo(r.name, r.header.offset, r.header.size, r.header.zippedSize, r.header.isZip, r.header.crc)
  }

  function Infos(rs: seq<JournalRecord>): (r: seq<WadFileInfo>)
    ensures |r| == |rs|
  {
    seq(|rs|, i requires 0 <= i < |rs| => InfoOf(rs[i]))
  }

  /** `struct.unpack` raised: the slice at cursor `at` was shorter than its format. */
  datatype ParseError = Truncated(at: int)

  datatype ParsedJournal = ParsedJournal(
    version: int,
    fileNum: int,
    records: seq<JournalRecord>,
    end: int)

  /** `name.rstrip("\x00")`. */
  function StripNul(s: bytes): (r: bytes)
    ensures r <= s
    ensures r == [] || r[|r| - 1] != 0
    ensures forall i :: |r| <= i < |s| ==> s[i] == 0
    decreases |s|
  {
    if s != [] && s[|s| - 1] == 0 then StripNul(s[..|s| - 1]) else s
  }

  /** The bytes a run of records occupies by their own account: 21 plus the name length, each. */
  function RecordsLength(rs: seq<JournalRecord>): int
    decreases |rs|
  {
    if rs == [] then 0
    else RecordsLength(rs[..|rs| - 1]) + RECORD_SIZE + rs[|rs| - 1].header.nameLength
  }

  /** One iteration of the journal loop, at `cursor`: the record and the cursor after it. */
  function ParseRecord(data: bytes, cursor: int): (r: Result<(JournalRecord, int), ParseError>)
    ensures r.Success? <==> |PySlice(data, cursor, cursor + RECORD_SIZE)| == RECORD_SIZE
    ensures r.Failure? ==> r.error == Truncated(cursor)
    ensures r.Success? ==> r.value.1 == cursor + RECORD_SIZE + r.value.0.header.nameLength
  {
    var raw := PySlice(data, cursor, cursor + RECORD_SIZE);
    if |raw| != RECORD_SIZE then Failure(Truncated(cursor))
    else
      var h := UnpackRecord(raw);
      var nameStart := cursor + RECORD_SIZE;
      var name := StripNul(PySlice(data, nameStart, nameStart + h.nameLength));
      Success((JournalRecord(h, name), nameStart + h.nameLength))
  }

  /**
   * `count` iterations of a loop whose body `step` moves a cursor on from
   * `start`, collecting what each iteration yields; the first iteration
   * that fails ends the loop with its error.
   */
  function Iterate<T, E>(step: int -> Result<(T, int), E>, start: int, count: nat): (r: Result<(seq<T>, int), E>)
    ensures r.Success? ==> |r.value.0| == count
    decreases count
  {
    if count == 0 then Success(([], start))
    else
      match Iterate(step, start, count - 1)
      case Failure(e) => Failure(e)
      case Success((xs, cursor)) =>
        match step(cursor)
        case Failure(e) => Failure(e)
        case Success((x, next)) => Success((xs + [x], next))
  }

  /** The cursor before iteration `k`, when iteration `i` ends at `ends[i]`. */
  function Before(start: int, ends: seq<int>, k: nat): int
    requires k <= |ends|
  {
    if k == 0 then start else ends[k - 1]
  }

  /** A loop whose every iteration yields `xs[k]` and ends at `ends[k]` yields `xs`. */
  lemma {:induction false} IterateChain<T, E>(step: int -> Result<(T, int), E>, start: int, xs: seq<T>, ends: seq<int>)
    requires |ends| == |xs|
    requires forall k {:trigger Before(start, ends, k)} :: 0 <= k < |xs| ==> step(Before(start, ends, k)) == Success((xs[k], ends[k]))
    ensures Iterate(step, start, |xs|) == Success((xs, Before(start, ends, |xs|)))
    decreases |xs|
  {
    if xs != [] {
      var n := |xs| - 1;
      assert forall k :: 0 <= k < n ==> Before(start, ends[..n], k) == Before(start, ends, k);
      IterateChain(step, start, xs[..n], ends[..n]);
      assert Before(start, ends[..n], n) == Before(start, ends, n);
      assert xs == xs[..n] + [xs[n]];
    }
  }

  /** A run of the loop that succeeds is a shorter successful run and one more successful iteration. */
  lemma IterateLast<T, E>(step: int -> Result<(T, int), E>, start: int, count: nat)
    requires count > 0 && Iterate(step, start, count).Success?
    ensures Iterate(step, start, count - 1).Success?
    ensures var prev := Iterate(step, start, count - 1).value;
            && step(prev.1).Success?
            && Iterate(step, start, count).value == (prev.0 + [step(prev.1).value.0], step(prev.1).value.1)
  {
  }

  /** A run of the loop followed by an iteration that fails fails with that iteration's error. */
  lemma IterateStops<T, E>(step: int -> Result<(T, int), E>, start: int, count: nat)
    requires Iterate(step, start, count).Success?
    requires step(Iterate(step, start, count).value.1).Failure?
    ensures Iterate(step, start, count + 1) == Failure(step(Iterate(step, start, count).value.1).error)
  {
  }

  /** The body of the journal loop over `data`. */
  function RecordStep(data: bytes): int -> Result<(JournalRecord, int), ParseError> {
    cursor => ParseRecord(data, cursor)
  }

  lemma {:induction false} ParseRecordsLength(data: bytes, start: int, count: nat)
    ensures var r := Iterate(RecordStep(data), start, count);
            r.Success? ==> r.value.1 == start + RecordsLength(r.value.0)
    decreases count
  {
    if count > 0 {
      ParseRecordsLength(data, start, count - 1);
      var r := Iterate(RecordStep(data), start, count);
      if r.Success? {
        IterateLast(RecordStep(data), start, count);
        var prev := Iterate(RecordStep(data), start, count - 1).value;
        var last := ParseRecord(data, prev.1).value;
        assert r.value.0 == prev.0 + [last.0];
        assert r.value.0[..count - 1] == prev.0;
      }
    }
  }

  /** The first `count` iterations of the journal loop, starting at `start`. */
  function ParseRecords(data: bytes, start: int, count: nat): (r: Result<(seq<JournalRecord>, int), ParseError>)
    ensures r.Success? ==> |r.value.0| == count
    ensures r.Success? ==> r.value.1 == start + RecordsLength(r.value.0)
  {
    ParseRecordsLength(data, start, count);
    Iterate(RecordStep(data), start, count)
  }

  /**
   * `_refresh_journal`: the version and file count at offset 5 (the magic is
   * skipped, never checked), one reserved byte from version 2 on, then
   * `file_num` records (none when it is negative).
   */
  function ParseJournal(data: bytes): (r: Result<ParsedJournal, ParseError>)
    ensures r.Success? ==> |r.value.records| == if r.value.fileNum < 0 then 0 else r.value.fileNum
    ensures r.Success? ==> r.value.end == HeaderSize(r.value.version) + RecordsLength(r.value.records)
  {
    var header := PySlice(data, 5, 13);
    if |header| != 8 then Failure(Truncated(5))
    else
      var version := UnpackI32(header, 0);
      var fileNum := UnpackI32(header, 4);
      match ParseRecords(data, HeaderSize(version), if fileNum < 0 then 0 else fileNum)
      case Failure(e) => Failure(e)
      case Success((records, end)) => Success(ParsedJournal(version, fileNum, records, end))
  }

  /** A successful iteration, in terms of the 21 bytes unpacked and the name bytes read after them. */
  lemma ParseRecordFrom(data: bytes, cursor: int, raw: bytes, nameBytes: bytes, h: RecordHeader, name: Name, next: int)
    requires raw == PySlice(data, cursor, cursor + RECORD_SIZE) && |raw| == RECORD_SIZE && UnpackRecord(raw) == h
    requires nameBytes == PySlice(data, cursor + RECORD_SIZE, cursor + RECORD_SIZE + h.nameLength)
    requires StripNul(nameBytes) == name && next == cursor + RECORD_SIZE + h.nameLength
    ensures ParseRecord(data, cursor) == Success((JournalRecord(h, name), next))
  {
    var ns := PySlice(data, cursor + RECORD_SIZE, cursor + RECORD_SIZE + UnpackRecord(raw).nameLength);
    assert ns == nameBytes;
    assert StripNul(ns) == name;
    assert ParseRecord(data, cursor) == Success((JournalRecord(UnpackRecord(raw), StripNul(ns)), next));
  }

  /** A journal loop whose every iteration reads `rs[k]` and ends at `ends[k]` reads `rs`. */
  lemma ParseRecordsChain(data: bytes, start: int, count: nat, rs: seq<JournalRecord>, ends: seq<int>, end: int)
    requires |rs| == count && |ends| == count && end == (if count == 0 then start else ends[count - 1])
    requires forall k {:trigger Before(start, ends, k)} :: 0 <= k < count ==> ParseRecord(data, Before(start, ends, k)) == Success((rs[k], ends[k]))
    ensures ParseRecords(data, start, count) == Success((rs, end))
  {
    IterateChain(RecordStep(data), start, rs, ends);
  }

  /** One more iteration of the journal loop extends the records parsed so far. */
  lemma ParseRecordsStep(data: bytes, start: int, n: nat, rs: seq<JournalRecord>, cursor: int,
                         rec: JournalRecord, next: int)
    requires ParseRecords(data, start, n) == Success((rs, cursor))
    requires ParseRecord(data, cursor) == Success((rec, next))
    ensures ParseRecords(data, start, n + 1) == Success((rs + [rec], next))
  {
  }

  /** The whole journal, given the header read at offset 5 and the loop's outcome. */
  lemma ParseJournalFrom(data: bytes, version: int, fileNum: int, count: nat,
                         rs: Result<(seq<JournalRecord>, int), ParseError>)
    requires |PySlice(data, 5, 13)| == 8
    requires version == UnpackI32(PySlice(data, 5, 13), 0)
    requires fileNum == UnpackI32(PySlice(data, 5, 13), 4)
    requires count == if fileNum < 0 then 0 else fileNum
    requires rs == ParseRecords(data, HeaderSize(version), count)
    ensures rs.Success? ==> ParseJournal(data) == Success(ParsedJournal(version, fileNum, rs.value.0, rs.value.1))
    ensures rs.Failure? ==> ParseJournal(data) == Failure(rs.error)
  {
  }

  /** Once an iteration raises, every longer run of the loop raises the same error. */
  lemma {:induction false} ParseFailurePersists(data: bytes, start: int, k: nat, n: nat)
    requires k <= n
    requires ParseRecords(data, start, k).Failure?
    ensures ParseRecords(data, start, n) == ParseRecords(data, start, k)
    decreases n
  {
    if k < n {
      ParseFailurePersists(data, start, k, n - 1);
    }
  }

  /** Filing one more record extends the map built from the records before it. */
  lemma InsertAllSnoc(m: FileMap, rs: seq<JournalRecord>, rec: JournalRecord)
    requires WellFormed(m)
    ensures InsertAll(m, Infos(rs + [rec])) == Insert(InsertAll(m, Infos(rs)), InfoOf(rec))
  {
    var xs := Infos(rs + [rec]);
    assert xs == Infos(rs) + [InfoOf(rec)];
    assert xs[..|rs|] == Infos(rs);
  }

  /** The sum of `size` over the entries: `sum(file.size for file in ...)`. */
  function TotalSize(infos: seq<WadFileInfo>): (total: int)
    ensures infos == [] ==> total == 0
    ensures (forall i :: 0 <= i < |infos| ==> infos[i].size >= 0) ==> total >= 0
    ensures (forall i :: 0 <= i < |infos| ==> infos[i].size >= 0) ==> forall i :: 0 <= i < |infos| ==> infos[i].size <= total
    decreases |infos|
  {
    if infos == [] then 0 else TotalSize(infos[..|infos| - 1]) + infos[|infos| - 1].size
  }

  datatype WadError = NotFound(name: Name) | DecompressError(name: Name)

  /** `zlib.decompress`, outside the model: `None` where zlib raises. */
  type Decompressor = bytes -> Option<bytes>

  /** The stored bytes of an entry: `zipped_size` bytes if it is compressed, `size` bytes otherwise. */
  function StoredSlice(data: bytes, info: WadFileInfo): (r: bytes)
    ensures |r| <= |data|
    ensures var len := if info.isZip then info.zippedSize else info.size;
            0 <= info.offset && 0 <= len && info.offset + len <= |data| ==> r == data[info.offset..info.offset + len]
    ensures var len := if info.isZip then info.zippedSize else info.size;
            0 <= info.offset <= |data| <= info.offset + len ==> r == data[info.offset..]
  {
    PySlice(data, info.offset, info.offset + if info.isZip then info.zippedSize else info.size)
  }

  /** `read` once the entry is found: `None` for a placeholder, else the (decompressed) bytes. */
  function ReadEntry(data: bytes, info: WadFileInfo, decompress: Decompressor): (r: Result<Option<bytes>, WadError>)
    ensures r == Success(None) <==> IsUnpatched(StoredSlice(data, info))
    ensures r.Failure? <==>
              !IsUnpatched(StoredSlice(data, info)) && info.isZip && decompress(StoredSlice(data, info)).None?
    ensures r.Success? && r.value.Some? ==>
              r.value.value == if info.isZip then decompress(StoredSlice(data, info)).value else StoredSlice(data, info)
  {
    var stored := StoredSlice(data, info);
    if IsUnpatched(stored) then Success(None)
    else if info.isZip then
      match decompress(stored)
      case None => Failure(DecompressError(info.name))
      case Some(d) => Success(Some(d))
    else Success(Some(stored))
  }

  /** The content `_extract_all` gives the entry's file: empty for a placeholder (`touch`). */
  function ExtractContent(data: bytes, info: WadFileInfo, decompress: Decompressor): (r: Result<bytes, WadError>)
    ensures IsUnpatched(StoredSlice(data, info)) ==> r == Success([])
    ensures r.Failure? <==>
              !IsUnpatched(StoredSlice(data, info)) && info.isZip && decompress(StoredSlice(data, info)).None?
    ensures r.Failure? ==> r.error == DecompressError(info.name)
    ensures r.Success? && !IsUnpatched(StoredSlice(data, info)) ==>
              r.value == if info.isZip then decompress(StoredSlice(data, info)).value else StoredSlice(data, info)
  {
    var stored := StoredSlice(data, info);
    if IsUnpatched(stored) then Success([])
    else if !info.isZip then Success(stored)
    else
      match decompress(stored)
      case None => Failure(DecompressError(info.name))
      case Some(d) => Success(d)
  }

  /** The decompressor is consulted only for a compressed entry that is not a placeholder. */
  lemma ReadIgnoresCodecUnlessZipped(data: bytes, info: WadFileInfo, d1: Decompressor, d2: Decompressor)
    requires !info.isZip || IsUnpatched(StoredSlice(data, info))
    ensures ReadEntry(data, info, d1) == ReadEntry(data, info, d2)
    ensures ExtractContent(data, info, d1) == ExtractContent(data, info, d2)
  {
  }

  /** Extraction mirrors `read`: the same bytes, and an empty file where `read` gives `None`. */
  lemma ExtractMatchesRead(data: bytes, info: WadFileInfo, decompress: Decompressor)
    ensures ExtractContent(data, info, decompress) ==
              match ReadEntry(data, info, decompress)
              case Failure(e) => Failure(e)
              case Success(None) => Success([])
              case Success(Some(d)) => Success(d)
  {
  }

  /** An iteration whose 21-byte slice is short ends every run of the loop that reaches it, with its error. */
  lemma TruncatedStops(data: bytes, start: int, i: nat, count: nat, parsed: seq<JournalRecord>, cursor: int)
    requires i < count && ParseRecords(data, start, i) == Success((parsed, cursor))
    requires |PySlice(data, cursor, cursor + RECORD_SIZE)| != RECORD_SIZE
    ensures ParseRecords(data, start, count) == Failure(Truncated(cursor))
  {
    assert ParseRecord(data, cursor) == Failure(Truncated(cursor));
    IterateStops(RecordStep(data), start, i);
    ParseFailurePersists(data, start, i + 1, count);
  }

  /** An iteration that reads `rec` extends the loop's records and files `rec` in the map. */
  lemma RecordFiled(data: bytes, start: int, i: nat, parsed: seq<JournalRecord>, cursor: int,
                    rec: JournalRecord, next: int, m: FileMap)
    requires WellFormed(m)
    requires ParseRecords(data, start, i) == Success((parsed, cursor))
    requires ParseRecord(data, cursor) == Success((rec, next))
    ensures ParseRecords(data, start, i + 1) == Success((parsed + [rec], next))
    ensures Insert(InsertAll(m, Infos(parsed)), InfoOf(rec)) == InsertAll(m, Infos(parsed + [rec]))
  {
    ParseRecordsStep(data, start, i, parsed, cursor, rec, next);
    InsertAllSnoc(m, parsed, rec);
  }

  /**
   * The record loop of `_refresh_journal` from cursor `start`: `fileNum`
   * iterations (none when it is negative), each filing its record in the
   * map. Stops with the error of the first iteration that raises.
   */
  method FileRecords(data: bytes, start: int, fileNum: int, m: FileMap) returns (err: Option<ParseError>, filed: FileMap)
    requires WellFormed(m)
    ensures var rs := ParseRecords(data, start, if fileNum < 0 then 0 else fileNum);
            (rs.Failure? ==> err == Some(rs.error)) &&
            (rs.Success? ==> err == None && filed == InsertAll(m, Infos(rs.value.0)))
  {
    var count: nat := if fileNum < 0 then 0 else fileNum;
    var fileOffset := start;
    ghost var parsed: seq<JournalRecord> := [];
    filed := m;
    var i := 0;
    while i < fileNum
      invariant 0 <= i <= count
      invariant ParseRecords(data, start, i) == Success((parsed, fileOffset))
      invariant filed == InsertAll(m, Infos(parsed))
      decreases fileNum - i
    {
      var raw := PySlice(data, fileOffset, fileOffset + RECORD_SIZE);
      if |raw| != RECORD_SIZE {
        TruncatedStops(data, start, i, count, parsed, fileOffset);
        return Some(Truncated(fileOffset)), filed;
      }
      var h := UnpackRecord(raw);
      ghost var cursor := fileOffset;
      fileOffset := fileOffset + RECORD_SIZE;
      var nameBytes := PySlice(data, fileOffset, fileOffset + h.nameLength);
      var name := StripNul(nameBytes);
      fileOffset := fileOffset + h.nameLength;
      var rec := JournalRecord(h, name);
      ParseRecordFrom(data, cursor, raw, nameBytes, h, name, fileOffset);
      RecordFiled(data, start, i, parsed, cursor, rec, fileOffset, m);
      filed := Insert(filed, InfoOf(rec));
      parsed := parsed + [rec];
      i := i + 1;
    }
    assert i == count;
    return None, filed;
  }

  /** An open archive: the mapped bytes and the name map built from its journal. */
  class Wad {
    const data: bytes
    var fileMap: FileMap
    var refreshedOnce: bool
    var sizeCache: Option<int>

    /** The journal has been parsed once and the map holds exactly its records; a cached size is right. */
    ghost predicate Valid()
      reads this
    {
      && refreshedOnce
      && ParseJournal(data).Success?
      && fileMap == InsertAll(EMPTY, Infos(ParseJournal(data).value.records))
      && WellFormed(fileMap)
      && (sizeCache.Some? ==> sizeCache.value == TotalSize(Values(fileMap)))
    }

    /** The fields `__init__` sets before it refreshes the journal. */
    constructor (data: bytes)
      ensures this.data == data && fileMap == EMPTY && !refreshedOnce && sizeCache == None
    {
      this.data := data;
      fileMap := EMPTY;
      refreshedOnce := false;
      sizeCache := None;
    }

    /**
     * `_refresh_journal`: a no-op after the first call; otherwise parses the
     * journal and files each record under its name, a later record with the
     * same name replacing the earlier one.
     */
    method RefreshJournal() returns (err: Option<ParseError>)
      requires WellFormed(fileMap)
      modifies this
      ensures refreshedOnce && sizeCache == old(sizeCache)
      ensures old(refreshedOnce) ==> err == None && fileMap == old(fileMap)
      ensures !old(refreshedOnce) && ParseJournal(data).Failure? ==> err == Some(ParseJournal(data).error)
      ensures !old(refreshedOnce) && ParseJournal(data).Success? ==>
                err == None && fileMap == InsertAll(old(fileMap), Infos(ParseJournal(data).value.records))
    {
      if refreshedOnce {
        return None;
      }
      refreshedOnce := true;

      var fileOffset := 5;
      var header := PySlice(data, fileOffset, fileOffset + 8);
      if |header| != 8 {
        return Some(Truncated(fileOffset));
      }
      var version, fileNum := UnpackI32(header, 0), UnpackI32(header, 4);
      fileOffset := fileOffset + 8;
      if version >= 2 {
        fileOffset := fileOffset + 1;
      }

      var err', filed := FileRecords(data, fileOffset, fileNum, fileMap);
      fileMap := filed;
      var count: nat := if fileNum < 0 then 0 else fileNum;
      ParseJournalFrom(data, version, fileNum, count, ParseRecords(data, fileOffset, count));
      return err';
    }

    /** `name_list()`: each name in the map, once. */
    function NameList(): (r: seq<Name>)
      reads this
      requires Valid()
      ensures forall n :: n in r <==> n in fileMap.entries
      ensures forall i, j :: 0 <= i < j < |r| ==> r[i] != r[j]
    {
      fileMap.keys
    }

    /** `info_list()`: each entry in the map, once, in the order of `name_list()`. */
    function InfoList(): (r: seq<WadFileInfo>)
      reads this
      requires Valid()
      ensures |r| == |NameList()|
      ensures forall i :: 0 <= i < |r| ==> r[i].name == NameList()[i]
      ensures forall v :: v in r <==> v in fileMap.entries.Values
    {
      InsertAllKeyedByName(EMPTY, Infos(ParseJournal(data).value.records));
      Values(fileMap)
    }

    /** `get_info`: the entry filed under `name`; an unknown name raises. */
    function GetInfo(name: Name): (r: Result<WadFileInfo, WadError>)
      reads this
      requires Valid()
      ensures r.Success? <==> name in fileMap.entries
      ensures r.Success? ==> r.value == fileMap.entries[name] && r.value.name == name
      ensures r.Failure? ==> r.error == NotFound(name)
    {
      InsertAllKeyedByName(EMPTY, Infos(ParseJournal(data).value.records));
      if name in fileMap.entries then Success(fileMap.entries[name]) else Failure(NotFound(name))
    }

    /** `read`: the entry's content, `None` for a placeholder; an unknown name raises. */
    function Read(name: Name, decompress: Decompressor): (r: Result<Option<bytes>, WadError>)
      reads this
      requires Valid()
      ensures name !in fileMap.entries ==> r == Failure(NotFound(name))
      ensures name in fileMap.entries ==> r == ReadEntry(data, fileMap.entries[name], decompress)
    {
      match GetInfo(name)
      case Failure(e) => Failure(e)
      case Success(info) => ReadEntry(data, info, decompress)
    }

    /** `size()`: the total uncompressed size, remembered once computed (a cached 0 is recomputed). */
    method Size() returns (s: int)
      requires Valid()
      modifies this`sizeCache
      ensures Valid()
      ensures s == TotalSize(InfoList())
      ensures sizeCache == Some(s)
    {
      if sizeCache.Some? && sizeCache.value != 0 {
        return sizeCache.value;
      }
      s := TotalSize(Values(fileMap));
      sizeCache := Some(s);
    }

    /**
     * `_extract_all`: every entry of the map, in `info_list()` order, written
     * under its own name; the first decompression failure aborts.
     */
    method ExtractAll(decompress: Decompressor) returns (r: Result<seq<(Name, bytes)>, WadError>)
      requires Valid()
      ensures r == ExtractEntries(data, InfoList(), decompress)
    {
      r := ExtractLoop(data, InfoList(), decompress);
    }
  }

  /**
   * What extracting `infos` from `data` writes: one (path, content) pair per
   * entry in order, or the error of the first entry that fails to decompress.
   */
  function ExtractEntries(data: bytes, infos: seq<WadFileInfo>, decompress: Decompressor): (r: Result<seq<(Name, bytes)>, WadError>)
    ensures r.Success? ==> |r.value| == |infos|
    ensures r.Failure? ==> r.error.DecompressError?
    decreases |infos|
  {
    if infos == [] then Success([])
    else
      match ExtractEntries(data, infos[..|infos| - 1], decompress)
      case Failure(e) => Failure(e)
      case Success(written) =>
        var file := infos[|infos| - 1];
        match ExtractContent(data, file, decompress)
        case Failure(e) => Failure(e)
        case Success(content) => Success(written + [(file.name, content)])
  }

  /** The loop of `_extract_all` over the freshly mapped bytes. */
  method ExtractLoop(data: bytes, infos: seq<WadFileInfo>, decompress: Decompressor) returns (r: Result<seq<(Name, bytes)>, WadError>)
    ensures r == ExtractEntries(data, infos, decompress)
  {
    var written: seq<(Name, bytes)> := [];
    for i := 0 to |infos|
      invariant ExtractEntries(data, infos[..i], decompress) == Success(written)
    {
      assert infos[..i + 1][..i] == infos[..i];
      var file := infos[i];
      var stored := StoredSlice(data, file);
      var content: bytes;
      if IsUnpatched(stored) {
        content := [];
      } else if file.isZip {
        match decompress(stored)
        case None =>
          ExtractFailurePersists(data, infos, decompress, i + 1);
          return Failure(DecompressError(file.name));
        case Some(d) =>
          content := d;
      } else {
        content := stored;
      }
      written := written + [(file.name, content)];
    }
    assert infos[..|infos|] == infos;
    return Success(written);
  }

  /** Once an entry fails, extracting any longer prefix fails with the same error. */
  lemma {:induction false} ExtractFailurePersists(data: bytes, infos: seq<WadFileInfo>, decompress: Decompressor, k: nat)
    requires k <= |infos|
    requires ExtractEntries(data, infos[..k], decompress).Failure?
    ensures ExtractEntries(data, infos, decompress) == ExtractEntries(data, infos[..k], decompress)
    decreases |infos| - k
  {
    if k < |infos| {
      assert infos[..k + 1][..k] == infos[..k];
      if k + 1 == |infos| {
        assert infos[..k + 1] == infos;
      } else {
        ExtractFailurePersists(data, infos, decompress, k + 1);
      }
    } else {
      assert infos[..k] == infos;
    }
  }

  /** Extraction succeeds iff every entry does, and then writes each entry's content under its name, in order. */
  lemma {:induction false} ExtractEntriesContents(data: bytes, infos: seq<WadFileInfo>, decompress: Decompressor)
    ensures ExtractEntries(data, infos, decompress).Success? <==>
              forall i :: 0 <= i < |infos| ==> ExtractContent(data, infos[i], decompress).Success?
    ensures ExtractEntries(data, infos, decompress).Success? ==>
              var written := ExtractEntries(data, infos, decompress).value;
              |written| == |infos| &&
              forall i :: 0 <= i < |infos| ==>
                written[i] == (infos[i].name, ExtractContent(data, infos[i], decompress).value)
    decreases |infos|
  {
    if infos != [] {
      var init := infos[..|infos| - 1];
      ExtractEntriesContents(data, init, decompress);
      assert forall i :: 0 <= i < |init| ==> init[i] == infos[i];
    }
  }

  /** A failed extraction reports the first entry whose content cannot be extracted, by its name. */
  lemma {:induction false} ExtractEntriesFirstFailure(data: bytes, infos: seq<WadFileInfo>, decompress: Decompressor)
    requires ExtractEntries(data, infos, decompress).Failure?
    ensures exists i :: 0 <= i < |infos|
              && ExtractContent(data, infos[i], decompress).Failure?
              && ExtractEntries(data, infos, decompress).error == DecompressError(infos[i].name)
              && forall j :: 0 <= j < i ==> ExtractContent(data, infos[j], decompress).Success?
    decreases |infos|
  {
    var n := |infos| - 1;
    var init := infos[..n];
    assert forall j :: 0 <= j < n ==> init[j] == infos[j];
    if ExtractEntries(data, init, decompress).Failure? {
      ExtractEntriesFirstFailure(data, init, decompress);
      var i :| 0 <= i < n
               && ExtractContent(data, init[i], decompress).Failure?
               && ExtractEntries(data, init, decompress).error == DecompressError(init[i].name)
               && forall j :: 0 <= j < i ==> ExtractContent(data, init[j], decompress).Success?;
      assert ExtractContent(data, infos[i], decompress).Failure?;
    } else {
      ExtractEntriesContents(data, init, decompress);
      assert ExtractContent(data, infos[n], decompress).Failure?;
    }
  }

  /** `Wad(file)`: build the object and refresh its journal; a malformed journal raises. */
  method Open(data: bytes) returns (r: Result<Wad, ParseError>)
    ensures r.Success? <==> ParseJournal(data).Success?
    ensures r.Failure? ==> r.error == ParseJournal(data).error
    ensures r.Success? ==> fresh(r.value) && r.value.Valid() && r.value.data == data
    ensures r.Success? ==> r.value.sizeCache == None
  {
    var wad := new Wad(data);
    var err := wad.RefreshJournal();
    if err.Some? {
      return Failure(err.value);
    }
    return Success(wad);
  }
}
