/**
 * The KIWAD on-disk layout: the header, the 21-byte journal record
 * (`struct` format `<lll?Ll`) and the "unpatched" sentinel.
 */
module Format {
  import opened Bytes

  /** A relative path with `/` separators, as the bytes stored in the journal. */
  type Name = bytes

  /** `WadFileInfo`: one journal entry as the reader and the packer keep it. */
  datatype WadFileInfo = WadFileInfo(
    name: Name,
    offset: int,
    size: int,
    zippedSize: int,
    isZip: bool,
    crc: int)

  /** The five bytes `KIWAD` every archive starts with. */
  const MAGIC: bytes := [0x4B, 0x49, 0x57, 0x41, 0x44]

  /** `struct.calcsize("<lll?Ll")`. */
  const RECORD_SIZE: nat := 21

  /** The bytes before the first record: magic, version, file count, and a 0x01 from version 2 on. */
  function HeaderSize(version: int): nat {
    if version >= 2 then 14 else 13
  }

  /** The header as the packer writes it. */
  function PackHeader(version: int, fileNum: int): (b: bytes)
    requires InI32(version) && InI32(fileNum)
    ensures |b| == HeaderSize(version)
    ensures b[..5] == MAGIC
    ensures b[5..9] == PackI32(version) && b[9..13] == PackI32(fileNum)
    ensures version >= 2 ==> b[13] == 1
  {
    MAGIC + PackI32(version) + PackI32(fileNum) + (if version >= 2 then [1] else [])
  }

  /** The six fixed-width fields of one journal record. */
  datatype RecordHeader = RecordHeader(
    offset: int,
    size: int,
    zippedSize: int,
    isZip: bool,
    crc: int,
    nameLength: int)

  /** The fields `struct.pack("<lll?Ll", ...)` accepts without raising. */
  predicate Packable(h: RecordHeader) {
    InI32(h.offset) && InI32(h.size) && InI32(h.zippedSize) && InU32(h.crc) && InI32(h.nameLength)
  }

  /** `struct.pack("<lll?Ll", ...)`: 21 bytes, the boolean one 0 or 1. */
  function PackRecord(h: RecordHeader): (b: bytes)
    requires Packable(h)
    ensures |b| == RECORD_SIZE
    ensures b[12] == if h.isZip then 1 else 0
  {
    PackI32(h.offset) + PackI32(h.size) + PackI32(h.zippedSize) + PackBool(h.isZip)
      + PackU32(h.crc) + PackI32(h.nameLength)
  }

  /** `struct.unpack("<lll?Ll", b)`: every field read fits its format, so the record can be packed again. */
  function UnpackRecord(b: bytes): (h: RecordHeader)
    requires |b| == RECORD_SIZE
    ensures Packable(h)
    ensures h.isZip <==> b[12] != 0
    ensures h.nameLength < 0 <==> b[20] >= 128
  {
    RecordHeader(
      UnpackI32(b, 0), UnpackI32(b, 4), UnpackI32(b, 8),
      UnpackBool(b, 12), UnpackU32(b, 13), UnpackI32(b, 17))
  }

  /** Unpacking a packed record gives back every field. */
  lemma RecordRoundTrip(h: RecordHeader)
    requires Packable(h)
    ensures UnpackRecord(PackRecord(h)) == h
  {
    var b := PackRecord(h);
    assert b[0..4] == PackI32(h.offset);
    assert b[4..8] == PackI32(h.size);
    assert b[8..12] == PackI32(h.zippedSize);
    assert b[12..13] == PackBool(h.isZip);
    assert b[13..17] == PackU32(h.crc);
    assert b[17..21] == PackI32(h.nameLength);
    UnpackU32Slice(b, 0, PackI32(h.offset));
    UnpackU32Slice(b, 4, PackI32(h.size));
    UnpackU32Slice(b, 8, PackI32(h.zippedSize));
    UnpackU32Slice(b, 13, PackU32(h.crc));
    UnpackU32Slice(b, 17, PackI32(h.nameLength));
    I32RoundTrip(h.offset);
    I32RoundTrip(h.size);
    I32RoundTrip(h.zippedSize);
    U32RoundTrip(h.crc);
    I32RoundTrip(h.nameLength);
  }

  /** Conversely, 21 bytes whose boolean byte is 0 or 1 are re-packed unchanged. */
  lemma RecordBytesRoundTrip(b: bytes)
    requires |b| == RECORD_SIZE && b[12] <= 1
    ensures PackRecord(UnpackRecord(b)) == b
  {
    I32BytesRoundTrip(b, 0);
    I32BytesRoundTrip(b, 4);
    I32BytesRoundTrip(b, 8);
    U32BytesRoundTrip(b, 13);
    I32BytesRoundTrip(b, 17);
    assert PackBool(UnpackBool(b, 12)) == b[12..13];
    RecordFields(b);
  }

  /** The 21 bytes are the concatenation of the slices the six fields span. */
  lemma RecordFields(b: bytes)
    requires |b| == RECORD_SIZE
    ensures b[0..4] + b[4..8] + b[8..12] + b[12..13] + b[13..17] + b[17..21] == b
  {
    SlicesJoin(b, 0, 4, 8);
    SlicesJoin(b, 0, 8, 12);
    SlicesJoin(b, 0, 12, 13);
    SlicesJoin(b, 0, 13, 17);
    SlicesJoin(b, 0, 17, 21);
    assert b[0..21] == b;
  }

  lemma SlicesJoin(b: bytes, i: nat, j: nat, k: nat)
    requires i <= j <= k <= |b|
    ensures b[i..j] + b[j..k] == b[i..k]
  {
  }

  /** An "unpatched" placeholder: stored bytes that begin with four zero bytes. */
  predicate IsUnpatched(stored: bytes)
    ensures IsUnpatched(stored) ==> |stored| >= 4
    ensures |stored| >= 4 ==> (IsUnpatched(stored) <==> stored[0] == stored[1] == stored[2] == stored[3] == 0)
  {
    |stored| >= 4 && stored[..4] == [0, 0, 0, 0]
  }
}
