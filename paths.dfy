/**
 * The packer's view of a source tree: each file as its relative POSIX path
 * and its contents, the `pathlib` suffix that decides compression, and the
 * order `sorted(..., key=lambda p: p.as_posix())` puts the files in.
 */
module Paths {
  import opened Bytes
  import opened Format

  /** A file found under the source directory: its relative path and `read_bytes()`. */
  datatype SourceFile = SourceFile(path: Name, contents: bytes)

  const SLASH: byte := 0x2F
  const DOT: byte := 0x2E

  /** `.mp3` and `.ogg`, the members of `_NO_COMPRESS`. */
  const MP3: bytes := [0x2E, 0x6D, 0x70, 0x33]
  const OGG: bytes := [0x2E, 0x6F, 0x67, 0x67]

  /** `s.rfind(b)`: the last index holding `b`, or -1. */
  function LastIndexOf(s: bytes, b: byte): (r: int)
    ensures -1 <= r < |s|
    ensures r >= 0 ==> s[r] == b
    ensures forall k :: r < k < |s| ==> s[k] != b
    decreases |s|
  {
    if s == [] then -1
    else if s[|s| - 1] == b then |s| - 1
    else LastIndexOf(s[..|s| - 1], b)
  }

  /**
   * `PurePosixPath(p).suffix`: the final component runs from after the last
   * `/`; its suffix starts at its last dot, unless that dot is its first or
   * last byte, in which case there is none.
   */
  function Suffix(p: Name): (r: bytes)
    ensures r == [] || (|r| <= |p| && r[0] == DOT && r == p[|p| - |r|..])
  {
    var slash := LastIndexOf(p, SLASH);
    var dot := LastIndexOf(p, DOT);
    if slash + 1 < dot < |p| - 1 then p[dot..] else []
  }

  /**
   * The path ends in `.mp3` or `.ogg`, with at least one byte of its final
   * component before the dot (a hidden file named `.mp3` does not count).
   */
  predicate AudioName(p: Name) {
    |p| > 4 && p[|p| - 5] != SLASH && (p[|p| - 4..] == MP3 || p[|p| - 4..] == OGG)
  }

  /** The suffix is one of `_NO_COMPRESS` exactly for an audio name. */
  lemma SuffixIsAudio(p: Name)
    ensures Suffix(p) == MP3 || Suffix(p) == OGG <==> AudioName(p)
  {
    var slash := LastIndexOf(p, SLASH);
    var dot := LastIndexOf(p, DOT);
    if AudioName(p) {
      var t := p[|p| - 4..];
      assert p[|p| - 4] == t[0] == DOT;
      assert forall k :: |p| - 4 < k < |p| ==> p[k] == t[k - (|p| - 4)];
      assert dot == |p| - 4;
      assert slash < |p| - 5;
    }
    if Suffix(p) == MP3 || Suffix(p) == OGG {
      assert Suffix(p) == p[dot..];
      assert |p[dot..]| == 4;
    }
  }

  /** `file.suffix not in _NO_COMPRESS`: everything except MP3 and Ogg audio is compressed. */
  function IsZip(p: Name): (zip: bool)
    ensures !zip <==> AudioName(p)
  {
    SuffixIsAudio(p);
    Suffix(p) != MP3 && Suffix(p) != OGG
  }

  /** Python's `a <= b` on ASCII strings: lexicographic order by code. */
  predicate LexLe(a: Name, b: Name)
    decreases |a|
  {
    a == [] || (b != [] && (a[0] < b[0] || (a[0] == b[0] && LexLe(a[1..], b[1..]))))
  }

  lemma {:induction false} LexLeTotal(a: Name, b: Name)
    ensures LexLe(a, b) || LexLe(b, a)
    decreases |a|
  {
    if a != [] && b != [] && a[0] == b[0] {
      LexLeTotal(a[1..], b[1..]);
    }
  }

  lemma {:induction false} LexLeAntisymmetric(a: Name, b: Name)
    requires LexLe(a, b) && LexLe(b, a)
    ensures a == b
    decreases |a|
  {
    if a != [] {
      LexLeAntisymmetric(a[1..], b[1..]);
      assert a == [a[0]] + a[1..] && b == [b[0]] + b[1..];
    }
  }

  lemma {:induction false} LexLeTransitive(a: Name, b: Name, c: Name)
    requires LexLe(a, b) && LexLe(b, c)
    ensures LexLe(a, c)
    decreases |a|
  {
    if a != [] && a[0] == b[0] && b[0] == c[0] {
      LexLeTransitive(a[1..], b[1..], c[1..]);
    }
  }

  /** Every file precedes the ones after it in path order. */
  predicate SortedByPath(s: seq<SourceFile>) {
    forall i, j :: 0 <= i < j < |s| ==> LexLe(s[i].path, s[j].path)
  }

  /** No path occurs twice, as in one directory walk. */
  predicate DistinctPaths(s: seq<SourceFile>) {
    forall i, j :: 0 <= i < j < |s| ==> s[i].path != s[j].path
  }

  /** Put `f` before the first file whose path is not below its own. */
  function InsertByPath(f: SourceFile, s: seq<SourceFile>): (r: seq<SourceFile>)
    ensures |r| == |s| + 1
    ensures multiset(r) == multiset(s) + multiset{f}
    decreases |s|
  {
    if s == [] then [f]
    else if LexLe(f.path, s[0].path) then [f] + s
    else
      assert s == [s[0]] + s[1..];
      [s[0]] + InsertByPath(f, s[1..])
  }

  /** `sorted(files, key=as_posix)`: a stable sort by path. */
  function SortByPath(s: seq<SourceFile>): (r: seq<SourceFile>)
    ensures |r| == |s|
    ensures multiset(r) == multiset(s)
    decreases |s|
  {
    if s == [] then []
    else
      assert s == [s[0]] + s[1..];
      InsertByPath(s[0], SortByPath(s[1..]))
  }

  lemma {:induction false} InsertByPathSorted(f: SourceFile, s: seq<SourceFile>)
    requires SortedByPath(s)
    ensures SortedByPath(InsertByPath(f, s))
    decreases |s|
  {
    if s != [] {
      if LexLe(f.path, s[0].path) {
        var r := [f] + s;
        forall i, j | 0 <= i < j < |r| ensures LexLe(r[i].path, r[j].path) {
          if i == 0 && j > 1 {
            LexLeTransitive(f.path, s[0].path, s[j - 1].path);
          }
        }
      } else {
        LexLeTotal(f.path, s[0].path);
        InsertByPathSorted(f, s[1..]);
        var tail := InsertByPath(f, s[1..]);
        var r := [s[0]] + tail;
        forall j | 0 <= j < |tail| ensures LexLe(s[0].path, tail[j].path) {
          assert tail[j] in multiset(tail);
          assert tail[j] == f || tail[j] in multiset(s[1..]);
          if tail[j] != f {
            var k :| 0 <= k < |s[1..]| && s[1..][k] == tail[j];
            assert s[k + 1] == tail[j];
          }
        }
        assert forall i, j :: 0 <= i < j < |r| ==> LexLe(r[i].path, r[j].path);
      }
    }
  }

  /** The sorted list is in path order. */
  lemma {:induction false} SortByPathSorted(s: seq<SourceFile>)
    ensures SortedByPath(SortByPath(s))
    decreases |s|
  {
    if s != [] {
      SortByPathSorted(s[1..]);
      InsertByPathSorted(s[0], SortByPath(s[1..]));
    }
  }

  /** Membership in a sequence, read off its multiset. */
  lemma InMultiset(x: SourceFile, s: seq<SourceFile>) returns (k: nat)
    requires x in multiset(s)
    ensures k < |s| && s[k] == x
  {
    k :| k < |s| && s[k] == x;
  }

  /** Dropping the same first file from two permutations of each other leaves permutations. */
  lemma MultisetTail(a: seq<SourceFile>, b: seq<SourceFile>)
    requires a != [] && b != [] && a[0] == b[0]
    requires multiset(a) == multiset(b)
    ensures multiset(a[1..]) == multiset(b[1..])
  {
    assert a == [a[0]] + a[1..] && b == [b[0]] + b[1..];
    assert multiset(a) == multiset{a[0]} + multiset(a[1..]);
    assert multiset(b) == multiset{b[0]} + multiset(b[1..]);
    calc {
      multiset(a[1..]);
      multiset(a) - multiset{a[0]};
      multiset(b) - multiset{b[0]};
      multiset(b[1..]);
    }
  }

  /** Two path-ordered permutations of each other start with the same file. */
  lemma SortedSameHead(a: seq<SourceFile>, b: seq<SourceFile>)
    requires a != [] && SortedByPath(a) && SortedByPath(b)
    requires multiset(a) == multiset(b)
    requires DistinctPaths(a)
    ensures b != [] && a[0] == b[0]
  {
    assert a[0] in multiset(b);
    var j := InMultiset(a[0], b);
    assert b[0] in multiset(a);
    var i := InMultiset(b[0], a);
    if a[0] != b[0] {
      assert LexLe(b[0].path, b[j].path);
      assert LexLe(a[0].path, a[i].path);
      LexLeAntisymmetric(a[0].path, b[0].path);
      assert false;
    }
  }

  /**
   * Sorting is determined by its input: two path-ordered permutations of
   * the same files are equal when no path occurs twice.
   */
  lemma {:induction false} SortedUnique(a: seq<SourceFile>, b: seq<SourceFile>)
    requires SortedByPath(a) && SortedByPath(b)
    requires multiset(a) == multiset(b)
    requires DistinctPaths(a)
    ensures a == b
    decreases |a|
  {
    if a == [] {
      assert |b| == |multiset(b)| == 0;
    } else {
      SortedSameHead(a, b);
      MultisetTail(a, b);
      SortedUnique(a[1..], b[1..]);
      assert a == [a[0]] + a[1..] && b == [b[0]] + b[1..];
    }
  }

  /** Sorting keeps paths distinct. */
  lemma {:induction false} SortByPathDistinct(s: seq<SourceFile>)
    requires DistinctPaths(s)
    ensures DistinctPaths(SortByPath(s))
    decreases |s|
  {
    if s != [] {
      SortByPathDistinct(s[1..]);
      var rest := SortByPath(s[1..]);
      forall k | 0 <= k < |rest| ensures rest[k].path != s[0].path {
        assert rest[k] in multiset(s[1..]);
        var m := InMultiset(rest[k], s[1..]);
        assert s[m + 1] == rest[k];
      }
      InsertByPathDistinct(s[0], rest);
    }
  }

  lemma {:induction false} InsertByPathDistinct(f: SourceFile, s: seq<SourceFile>)
    requires DistinctPaths(s)
    requires forall k :: 0 <= k < |s| ==> s[k].path != f.path
    ensures DistinctPaths(InsertByPath(f, s))
    decreases |s|
  {
    if s != [] && !LexLe(f.path, s[0].path) {
      InsertByPathDistinct(f, s[1..]);
      var tail := InsertByPath(f, s[1..]);
      forall j | 0 <= j < |tail| ensures tail[j].path != s[0].path {
        assert tail[j] in multiset(tail);
        if tail[j] != f {
          var k := InMultiset(tail[j], s[1..]);
          assert s[k + 1] == tail[j];
        }
      }
    }
  }

  /** Files already in path order are left where they are. */
  lemma SortByPathOfSorted(s: seq<SourceFile>)
    requires SortedByPath(s) && DistinctPaths(s)
    ensures SortByPath(s) == s
  {
    SortByPathSorted(s);
    SortedUnique(s, SortByPath(s));
  }
}
