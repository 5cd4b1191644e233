/**
 * `Wad._file_map`: a Python dict from name to `WadFileInfo`. Python dicts
 * remember insertion order, so `name_list()` and `info_list()` list entries
 * in the order their names first appeared; assigning to an existing key
 * replaces the value in place.
 */
module FileMap {
  import opened Format

  datatype FileMap = FileMap(keys: seq<Name>, entries: map<Name, WadFileInfo>)

  const EMPTY: FileMap := FileMap([], map[])

  /** The keys are listed once each, and exactly the keys of the mapping are listed. */
  ghost predicate WellFormed(m: FileMap) {
    && (forall i, j :: 0 <= i < j < |m.keys| ==> m.keys[i] != m.keys[j])
    && (forall k :: k in m.entries <==> k in m.keys)
  }

  /** Every entry is filed under its own name. */
  ghost predicate KeyedByName(m: FileMap) {
    forall k :: k in m.entries ==> m.entries[k].name == k
  }

  /** `d[info.name] = info`. */
  function Insert(m: FileMap, info: WadFileInfo): (r: FileMap)
    requires WellFormed(m)
    ensures WellFormed(r)
    ensures r.entries == m.entries[info.name := info]
    ensures info.name in m.entries ==> r.keys == m.keys
    ensures info.name !in m.entries ==> r.keys == m.keys + [info.name]
  {
    if info.name in m.entries then FileMap(m.keys, m.entries[info.name := info])
    else FileMap(m.keys + [info.name], m.entries[info.name := info])
  }

  /**
   * Inserting `infos` one after another, as the journal loop does: the keys
   * already there keep their places, and at most one key is added per entry.
   */
  function InsertAll(m: FileMap, infos: seq<WadFileInfo>): (r: FileMap)
    requires WellFormed(m)
    ensures WellFormed(r)
    ensures m.keys <= r.keys && |r.keys| <= |m.keys| + |infos|
    decreases |infos|
  {
    if infos == [] then m
    else
      var before := InsertAll(m, infos[..|infos| - 1]);
      var r := Insert(before, infos[|infos| - 1]);
      assert r.keys[..|m.keys|] == before.keys[..|m.keys|];
      r
  }

  /** `list(d.values())`. */
  function Values(m: FileMap): (r: seq<WadFileInfo>)
    requires WellFormed(m)
    ensures |r| == |m.keys|
    ensures forall v :: v in r <==> v in m.entries.Values
  {
    var r := seq(|m.keys|, i requires 0 <= i < |m.keys| => m.entries[m.keys[i]]);
    assert forall v :: v in m.entries.Values ==> v in r by {
      forall v | v in m.entries.Values ensures v in r {
        var k :| k in m.entries && m.entries[k] == v;
        var i :| 0 <= i < |m.keys| && m.keys[i] == k;
        assert r[i] == v;
      }
    }
    r
  }

  predicate DistinctNames(infos: seq<WadFileInfo>) {
    forall i, j :: 0 <= i < j < |infos| ==> infos[i].name != infos[j].name
  }

  function Names(infos: seq<WadFileInfo>): (r: seq<Name>)
    ensures |r| == |infos|
  {
    seq(|infos|, i requires 0 <= i < |infos| => infos[i].name)
  }

  /** After inserting `infos`, a name is a key iff it was one before or some entry carries it. */
  lemma {:induction false} InsertAllKeys(m: FileMap, infos: seq<WadFileInfo>, k: Name)
    requires WellFormed(m)
    ensures k in InsertAll(m, infos).entries <==>
              k in m.entries || exists i :: 0 <= i < |infos| && infos[i].name == k
    decreases |infos|
  {
    if infos != [] {
      var init := infos[..|infos| - 1];
      InsertAllKeys(m, init, k);
      if exists i :: 0 <= i < |init| && init[i].name == k {
        var i :| 0 <= i < |init| && init[i].name == k;
        assert infos[i].name == k;
      }
      if exists i :: 0 <= i < |infos| && infos[i].name == k {
        var i :| 0 <= i < |infos| && infos[i].name == k;
        if i < |init| {
          assert init[i].name == k;
        }
      }
    }
  }

  /** Last wins: the entry kept under a name is the last one inserted with that name. */
  lemma {:induction false} InsertAllLastWins(m: FileMap, infos: seq<WadFileInfo>, j: nat)
    requires WellFormed(m)
    requires j < |infos|
    requires forall j' :: j < j' < |infos| ==> infos[j'].name != infos[j].name
    ensures infos[j].name in InsertAll(m, infos).entries
    ensures InsertAll(m, infos).entries[infos[j].name] == infos[j]
    decreases |infos|
  {
    var init := infos[..|infos| - 1];
    if j < |infos| - 1 {
      InsertAllLastWins(m, init, j);
    }
  }

  /** Filing entries under their names keeps every entry under its own name. */
  lemma {:induction false} InsertAllKeyedByName(m: FileMap, infos: seq<WadFileInfo>)
    requires WellFormed(m) && KeyedByName(m)
    ensures KeyedByName(InsertAll(m, infos))
    decreases |infos|
  {
    if infos != [] {
      InsertAllKeyedByName(m, infos[..|infos| - 1]);
    }
  }

  /** With distinct names, the last entry's name is not among the keys the others leave. */
  lemma LastNameIsNew(infos: seq<WadFileInfo>)
    requires DistinctNames(infos) && infos != []
    ensures DistinctNames(infos[..|infos| - 1])
    ensures infos[|infos| - 1].name !in InsertAll(EMPTY, infos[..|infos| - 1]).entries
  {
    var n := |infos| - 1;
    InsertAllKeys(EMPTY, infos[..n], infos[n].name);
  }

  /** With distinct names, every entry adds a new key, so the keys are the names in order. */
  lemma {:induction false} InsertAllDistinctKeys(infos: seq<WadFileInfo>)
    requires DistinctNames(infos)
    ensures InsertAll(EMPTY, infos).keys == Names(infos)
    decreases |infos|
  {
    if infos != [] {
      var n := |infos| - 1;
      var init := infos[..n];
      LastNameIsNew(infos);
      InsertAllDistinctKeys(init);
      assert InsertAll(EMPTY, infos) == Insert(InsertAll(EMPTY, init), infos[n]);
      assert Names(infos) == Names(init) + [infos[n].name];
    }
  }

  /** With distinct names, the dict lists exactly the inserted entries, in insertion order. */
  lemma InsertAllDistinct(infos: seq<WadFileInfo>)
    requires DistinctNames(infos)
    ensures InsertAll(EMPTY, infos).keys == Names(infos)
    ensures Values(InsertAll(EMPTY, infos)) == infos
  {
    InsertAllDistinctKeys(infos);
    var m := InsertAll(EMPTY, infos);
    forall i | 0 <= i < |infos| ensures Values(m)[i] == infos[i] {
      InsertAllLastWins(EMPTY, infos, i);
    }
  }
}
