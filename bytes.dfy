/**
 * Byte strings and the pieces of Python's `struct` module and slicing that
 * the archive codec uses: little-endian `<l` (signed 32-bit), `<L`
 * (unsigned 32-bit) and `?` (one-byte boolean).
 */
module Bytes {

  /** One element of a Python `bytes` object. */
  type byte = b: int | 0 <= b < 256

  type bytes = seq<byte>

  const TWO_31: int := 0x8000_0000
  const TWO_32: int := 0x1_0000_0000

  /** The values `struct.pack` accepts for the `l` format code. */
  predicate InI32(x: int) {
    -TWO_31 <= x < TWO_31
  }

  /** The values `struct.pack` accepts for the `L` format code. */
  predicate InU32(x: int) {
    0 <= x < TWO_32
  }

  /** `struct.pack("<L", u)`: four bytes, least significant first. */
  function PackU32(u: int): (b: bytes)
    requires InU32(u)
    ensures |b| == 4
  {
    var q1 := u / 256;
    var q2 := q1 / 256;
    [u % 256, q1 % 256, q2 % 256, q2 / 256]
  }

  /** `struct.unpack_from("<L", b, at)`: the four bytes from `at` on, least significant first. */
  function UnpackU32(b: bytes, at: nat): (u: int)
    requires at + 4 <= |b|
    ensures InU32(u)
  {
    var b0, b1, b2, b3: int := b[at], b[at + 1], b[at + 2], b[at + 3];
    b0 + 256 * (b1 + 256 * (b2 + 256 * b3))
  }

  /** A field is read from the bytes it spans. */
  lemma UnpackU32Slice(b: bytes, at: nat, w: bytes)
    requires at + 4 <= |b| && b[at..at + 4] == w
    ensures UnpackU32(b, at) == UnpackU32(w, 0)
  {
    assert b[at] == w[0] && b[at + 1] == w[1] && b[at + 2] == w[2] && b[at + 3] == w[3];
  }

  /** Splitting off the low byte: `x == x % 256 + 256 * (x / 256)`, and back. */
  lemma LowByte(lo: int, hi: int)
    requires 0 <= lo < 256
    ensures (lo + 256 * hi) % 256 == lo && (lo + 256 * hi) / 256 == hi
  {
  }

  lemma U32RoundTrip(u: int)
    requires InU32(u)
    ensures UnpackU32(PackU32(u), 0) == u
  {
    var q1 := u / 256;
    var q2 := q1 / 256;
    assert u == u % 256 + 256 * q1;
    assert q1 == q1 % 256 + 256 * q2;
    assert q2 == q2 % 256 + 256 * (q2 / 256);
    assert q2 / 256 < 256;
  }

  lemma U32BytesRoundTrip(b: bytes, at: nat)
    requires at + 4 <= |b|
    ensures PackU32(UnpackU32(b, at)) == b[at..at + 4]
  {
    var x2: int := b[at + 2] as int + 256 * b[at + 3] as int;
    var x1: int := b[at + 1] + 256 * x2;
    var u: int := b[at] + 256 * x1;
    assert UnpackU32(b, at) == u;
    LowByte(b[at], x1);
    LowByte(b[at + 1], x2);
    LowByte(b[at + 2], b[at + 3]);
    assert PackU32(u) == [b[at], b[at + 1], b[at + 2], b[at + 3]];
  }

  /** `struct.pack("<l", x)`: the two's-complement bit pattern of `x`. */
  function PackI32(x: int): (b: bytes)
    requires InI32(x)
    ensures |b| == 4
    ensures b[3] >= 128 <==> x < 0
  {
    var u := if x < 0 then x + TWO_32 else x;
    U32RoundTrip(u);
    PackU32(u)
  }

  /** `struct.unpack_from("<l", b, at)`: the sign is the top bit of the last byte. */
  function UnpackI32(b: bytes, at: nat): (x: int)
    requires at + 4 <= |b|
    ensures InI32(x)
    ensures x < 0 <==> b[at + 3] >= 128
    ensures x == if x < 0 then UnpackU32(b, at) - TWO_32 else UnpackU32(b, at)
  {
    var b0, b1, b2, b3: int := b[at], b[at + 1], b[at + 2], b[at + 3];
    assert UnpackU32(b, at) == b0 + 256 * (b1 + 256 * b2) + 0x100_0000 * b3;
    var u := UnpackU32(b, at);
    if u < TWO_31 then u else u - TWO_32
  }

  lemma I32RoundTrip(x: int)
    requires InI32(x)
    ensures UnpackI32(PackI32(x), 0) == x
  {
    U32RoundTrip(if x < 0 then x + TWO_32 else x);
  }

  lemma I32BytesRoundTrip(b: bytes, at: nat)
    requires at + 4 <= |b|
    ensures PackI32(UnpackI32(b, at)) == b[at..at + 4]
  {
    U32BytesRoundTrip(b, at);
  }

  /** `struct.pack("?", v)`: one byte, 1 for true and 0 for false. */
  function PackBool(v: bool): (b: bytes)
    ensures |b| == 1
  {
    [if v then 1 else 0]
  }

  /** `struct.unpack_from("?", b, at)`: any non-zero byte reads as true, so only 0 and 1 pack back unchanged. */
  function UnpackBool(b: bytes, at: nat): (v: bool)
    requires at < |b|
    ensures b[at] <= 1 ==> PackBool(v) == b[at..at + 1]
    ensures b[at] > 1 ==> PackBool(v) == [1]
  {
    b[at] != 0
  }

  /** A Python slice bound, normalised as `s[i:j]` does for a sequence of length `n`. */
  function SliceBound(i: int, n: nat): (r: nat)
    ensures r <= n
    ensures 0 <= i <= n ==> r == i
  {
    if i < 0 then (if i + n < 0 then 0 else i + n)
    else if i > n then n
    else i
  }

  /**
   * `s[i:j]` in Python: negative bounds count from the end, bounds past the
   * end are clamped, and an empty range gives an empty result.
   */
  function PySlice(s: bytes, i: int, j: int): (r: bytes)
    ensures |r| <= |s|
    ensures 0 <= i <= j <= |s| ==> r == s[i..j]
    ensures 0 <= i <= |s| <= j ==> r == s[i..]
  {
    var lo, hi := SliceBound(i, |s|), SliceBound(j, |s|);
    if lo < hi then s[lo..hi] else []
  }
}
