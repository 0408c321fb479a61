/** What the invariants of the builder say about the hive as a whole. */
module HiveShape {
  import opened Wrappers
  import opened Bytes
  import opened Strings
  import opened HiveHeap
  import opened HiveOrder
  import opened HiveRecords
  import HiveBuilding

  // ------------------------------------------------------------------ every byte has one place

  predicate InHeader(bins: Bins, b: nat, p: nat) {
    b in bins && b <= p < b + BIN_HEADER
  }

  predicate InCell(cells: Cells, c: nat, p: nat) {
    c in cells && c <= p < c + cells[c].size
  }

  lemma {:induction false} BinOf(bins: Bins, cells: Cells, len: nat, from: nat, p: nat) returns (b: nat)
    requires Shape(bins, cells, len) && from in bins && from <= p < len
    ensures b in bins && b <= p < b + bins[b]
    decreases len - from
  {
    assert BinShape(bins, cells, len, from);
    if p < from + bins[from] {
      b := from;
    } else {
      b := BinOf(bins, cells, len, from + bins[from], p);
    }
  }

  lemma {:induction false} CellOf(bins: Bins, cells: Cells, len: nat, from: nat, p: nat) returns (c: nat)
    requires Shape(bins, cells, len) && from in cells && cells[from].bin in bins
    requires from <= p < cells[from].bin + bins[cells[from].bin]
    ensures InCell(cells, c, p)
    decreases cells[from].bin + bins[cells[from].bin] - from
  {
    assert CellShape(bins, cells, from);
    if p < from + cells[from].size {
      c := from;
    } else {
      c := CellOf(bins, cells, len, from + cells[from].size, p);
    }
  }

  /** Every byte behind the base block lies in a bin header or in a cell: no space is lost. */
  lemma EveryByteCovered(bins: Bins, cells: Cells, len: nat, p: nat)
    requires Shape(bins, cells, len) && p < len
    ensures (exists b :: InHeader(bins, b, p)) || (exists c :: InCell(cells, c, p))
  {
    assert 0 in bins;
    var b := BinOf(bins, cells, len, 0, p);
    if p < b + BIN_HEADER {
      assert InHeader(bins, b, p);
    } else {
      assert BinShape(bins, cells, len, b);
      var c := CellOf(bins, cells, len, b + BIN_HEADER, p);
    }
  }

  /** No byte lies in two places: headers and cells never overlap. */
  lemma NoByteCoveredTwice(bins: Bins, cells: Cells, len: nat, p: nat, b: nat, b': nat, c: nat, c': nat)
    requires Shape(bins, cells, len)
    ensures InHeader(bins, b, p) && InHeader(bins, b', p) ==> b == b'
    ensures InCell(cells, c, p) && InCell(cells, c', p) ==> c == c'
    ensures !(InHeader(bins, b, p) && InCell(cells, c, p))
  {
    if b in bins && b' in bins {
      assert BinsApart(bins, b, b') && BinShape(bins, cells, len, b) && BinShape(bins, cells, len, b');
    }
    if c in cells && c' in cells {
      assert CellsApart(cells, c, c');
    }
    if b in bins && c in cells {
      BinCellDisjoint(bins, cells, len, b, c);
    }
  }

  // ------------------------------------------------------------------ every record has its own cells

  /** The cells that hold the key `k`: its node and its lists. */
  ghost function KeyCells(keys: Keys, k: u32): set<nat>
    requires k in keys
  {
    {k as nat} + (if keys[k].subkeys == [] then {} else {keys[k].subList as nat})
               + (if keys[k].values == [] then {} else {keys[k].valList as nat})
  }

  ghost function ValueCells(vals: Vals, v: u32): set<nat>
    requires v in vals
  {
    {v as nat} + (if |vals[v].data| <= 4 then {} else {vals[v].dataCell as nat})
  }

  /** Two records never share a cell, every cell of a record is in use, and every cell in use is one of a record. */
  lemma RecordsOwnTheirCells(cells: Cells, keys: Keys, vals: Vals, k: u32, j: u32, v: u32, w: u32, c: nat)
    requires Records(cells, keys, vals) && NoLeak(cells, keys, vals)
    ensures k in keys && j in keys && k != j ==> KeyCells(keys, k) !! KeyCells(keys, j)
    ensures v in vals && w in vals && v != w ==> ValueCells(vals, v) !! ValueCells(vals, w)
    ensures k in keys && v in vals ==> KeyCells(keys, k) !! ValueCells(vals, v)
    ensures k in keys && c in KeyCells(keys, k) ==> UsedIn(cells, c)
    ensures v in vals && c in ValueCells(vals, v) ==> UsedIn(cells, c)
    ensures UsedIn(cells, c) ==>
      (exists q :: q in keys && c in KeyCells(keys, q)) || (exists x :: x in vals && c in ValueCells(vals, x))
  {
    hide KeyFields, SubkeyListFields, ValueListFields, ValueFields;
    assert k in keys ==> KeyOk(cells, keys, k);
    assert j in keys ==> KeyOk(cells, keys, j);
    assert v in vals ==> ValOk(cells, vals, v);
    assert w in vals ==> ValOk(cells, vals, w);
    if UsedIn(cells, c) {
      assert CellOwned(cells, keys, vals, c);
      UsedCellHasRecord(cells, keys, vals, c);
    }
  }

  lemma UsedCellHasRecord(cells: Cells, keys: Keys, vals: Vals, c: nat)
    requires UsedIn(cells, c) && CellOwned(cells, keys, vals, c)
    ensures (exists q :: q in keys && c in KeyCells(keys, q)) || (exists x :: x in vals && c in ValueCells(vals, x))
  {
    match cells[c].tag
    case KeyCell => assert c in KeyCells(keys, c);
    case ValueCell => assert c in ValueCells(vals, c);
    case DataCell(v) => assert c in ValueCells(vals, v);
    case SubkeyList(k) => assert c in KeyCells(keys, k);
    case ValueList(k) => assert c in KeyCells(keys, k);
  }

  // ------------------------------------------------------------------ every key is reached once

  /** The key that a path of child positions leads to. */
  ghost function Follow(keys: Keys, k: u32, path: seq<nat>): Option<u32>
    decreases |path|
  {
    if k !in keys then None
    else if path == [] then Some(k)
    else match Follow(keys, k, path[..|path| - 1])
      case None => None
      case Some(q) =>
        if q in keys && path[|path| - 1] < |keys[q].subkeys| then Some(keys[q].subkeys[path[|path| - 1]].key) else None
  }

  lemma {:induction false} KeyIsReached(keys: Keys, vals: Vals, root: u32, k: u32) returns (path: seq<nat>)
    requires Graph(keys, vals, root) && k in keys
    ensures Follow(keys, root, path) == Some(k)
    decreases keys[k].born
  {
    if k == root {
      path := [];
    } else {
      assert LinksOk(keys, vals, root, k);
      var q := keys[k].parent;
      var i :| 0 <= i < |keys[q].subkeys| && keys[q].subkeys[i].key == k;
      assert LinksOk(keys, vals, root, q) && ChildLink(keys, root, q, i);
      var up := KeyIsReached(keys, vals, root, q);
      path := up + [i];
      assert path[..|path| - 1] == up;
    }
  }

  lemma FollowStaysInside(keys: Keys, vals: Vals, root: u32, path: seq<nat>)
    requires Graph(keys, vals, root) && Follow(keys, root, path).Some?
    ensures Follow(keys, root, path).value in keys
    ensures path != [] ==> Follow(keys, root, path).value != root
  {
    if path != [] {
      var q := Follow(keys, root, path[..|path| - 1]).value;
      assert LinksOk(keys, vals, root, q) && ChildLink(keys, root, q, path[|path| - 1]);
    }
  }

  lemma {:induction false} OnePathOnly(keys: Keys, vals: Vals, root: u32, path: seq<nat>, path': seq<nat>)
    requires Graph(keys, vals, root)
    requires Follow(keys, root, path).Some? && Follow(keys, root, path') == Follow(keys, root, path)
    ensures path == path'
    decreases |path|
  {
    FollowStaysInside(keys, vals, root, path);
    FollowStaysInside(keys, vals, root, path');
    if path == [] || path' == [] {
    } else {
      var up, up' := path[..|path| - 1], path'[..|path'| - 1];
      var q, q' := Follow(keys, root, up).value, Follow(keys, root, up').value;
      var i, i' := path[|path| - 1], path'[|path'| - 1];
      assert LinksOk(keys, vals, root, q) && ChildLink(keys, root, q, i);
      assert LinksOk(keys, vals, root, q') && ChildLink(keys, root, q', i');
      OnePathOnly(keys, vals, root, up, up');
      assert path == up + [i] && path' == up' + [i'];
    }
  }

  /** From the root, exactly one path of child positions leads to every key. */
  lemma EveryKeyReachedOnce(keys: Keys, vals: Vals, root: u32, k: u32)
    requires Graph(keys, vals, root) && k in keys
    ensures exists path :: Follow(keys, root, path) == Some(k)
    ensures forall path, path' ::
      (Follow(keys, root, path) == Some(k) && Follow(keys, root, path') == Some(k)) ==> path == path'
  {
    var p := KeyIsReached(keys, vals, root, k);
    forall path, path' | Follow(keys, root, path) == Some(k) && Follow(keys, root, path') == Some(k)
      ensures path == path'
    {
      OnePathOnly(keys, vals, root, path, path');
    }
  }

  predicate ListsValue(keys: Keys, k: u32, i: nat, v: u32) {
    k in keys && i < |keys[k].values| && keys[k].values[i] == v
  }

  /** Every value hangs at exactly one place of exactly one key. */
  lemma EveryValueListedOnce(keys: Keys, vals: Vals, root: u32, v: u32)
    requires Graph(keys, vals, root) && v in vals
    ensures exists k, i :: ListsValue(keys, k, i, v)
    ensures forall k, i, k', i' :: (ListsValue(keys, k, i, v) && ListsValue(keys, k', i', v)) ==> (k == k' && i == i')
  {
    assert ValueOwned(keys, vals, v);
    var at :| 0 <= at < |keys[vals[v].key].values| && keys[vals[v].key].values[at] == v;
    assert ListsValue(keys, vals[v].key, at, v);
    forall k, i, k', i' | ListsValue(keys, k, i, v) && ListsValue(keys, k', i', v)
      ensures k == k' && i == i'
    {
      assert LinksOk(keys, vals, root, k) && ValueLink(keys, vals, k, i);
      assert LinksOk(keys, vals, root, k') && ValueLink(keys, vals, k', i');
    }
  }

  // ------------------------------------------------------------------ the records as they stand in the file

  /** The base block: its mark, version 1.5, the types of file and format, and the clustering factor, as bytes. */
  lemma BaseOnDisk(data: seq<byte>, root: u32, sequence: u32)
    requires HiveBuilding.BaseFields(data, root, sequence)
    ensures |data| >= 4096 && data[0..4] == [0x72, 0x65, 0x67, 0x66]
    ensures Get32(data, 4) == Get32(data, 8) == sequence && Get32(data, 36) == root
    ensures data[20..28] == [1, 0, 0, 0, 5, 0, 0, 0] && data[28..36] == [0, 0, 0, 0, 1, 0, 0, 0]
    ensures data[44..48] == [1, 0, 0, 0]
  {
    SmallField(data, 20);
    SmallField(data, 24);
    SmallField(data, 28);
    SmallField(data, 32);
    SmallField(data, 44);
  }

  lemma SmallField(data: seq<byte>, at: nat)
    requires at + 4 <= |data| && Get32(data, at) < 256
    ensures data[at] == Get32(data, at) && data[at + 1] == 0 && data[at + 2] == 0 && data[at + 3] == 0
  {
  }

  /** A bin header: its mark, its offset behind the base block, and its size. */
  lemma BinOnDisk(data: seq<byte>, bins: Bins, cells: Cells, b: nat)
    requires Heap(data, bins, cells) && b in bins
    ensures var p := 4096 + b;
            && p + 32 <= |data| && data[p..p + 4] == [0x68, 0x62, 0x69, 0x6E]
            && Get32(data, p + 4) == b && Get32(data, p + 8) == bins[b]
  {
    assert BinImage(data, b, bins[b]);
  }

  /** A cell as bytes: its payload stands behind its size field, which is negative for a cell in use. */
  lemma CellOnDisk(data: seq<byte>, bins: Bins, cells: Cells, c: nat)
    requires Heap(data, bins, cells) && c in cells
    ensures var p := 4096 + c;
            && p + 4 <= |data| && p + cells[c].size <= |data| && |cells[c].payload| == cells[c].size - 4
            && data[p + 4..p + cells[c].size] == cells[c].payload
            && GetI32(data, p) as int == (if cells[c].tag.Free? then 1 else -1) * (cells[c].size as int)
  {
    assert CellShape(bins, cells, c) && CellImage(data, c, cells[c]);
  }

  /** A field of a cell, read from the file. */
  lemma CellField(data: seq<byte>, bins: Bins, cells: Cells, c: nat, at: nat)
    requires Heap(data, bins, cells) && c in cells
    ensures at + 4 <= |cells[c].payload| ==>
      4100 + c + at + 4 <= |data| && Get32(data, 4100 + c + at) == Get32(cells[c].payload, at)
    ensures at + 2 <= |cells[c].payload| ==>
      && 4100 + c + at + 2 <= |data| && Get16(data, 4100 + c + at) == Get16(cells[c].payload, at)
      && data[4100 + c + at..4100 + c + at + 2] == cells[c].payload[at..at + 2]
  {
    CellOnDisk(data, bins, cells, c);
    var p := 4100 + c;
    var payload := cells[c].payload;
    assert forall j {:trigger payload[j]} :: 0 <= j < |payload| ==> data[p + j] == payload[j];
  }

  /** The fields of a key: its flags, parent, lists and counts, also those that the parser does not read. */
  lemma KeyOnDisk(data: seq<byte>, bins: Bins, cells: Cells, keys: Keys, vals: Vals, k: u32)
    requires Heap(data, bins, cells) && Records(cells, keys, vals) && k in keys
    ensures var p, r := 4100 + k, keys[k];
            && p + 76 <= |data| && data[p..p + 2] == [0x6E, 0x6B]
            && Get16(data, p + 2) == r.flags && r.flags in {0x20, 0x24}
            && Get32(data, p + 16) == r.parent
            && Get32(data, p + 20) == |r.subkeys| && Get32(data, p + 28) == r.subList
            && Get32(data, p + 36) == |r.values| && Get32(data, p + 40) == r.valList
            && Get32(data, p + 52) == r.maxName && Get16(data, p + 72) == |r.name| % 0x1_0000
  {
    hide Heap, Get32, Get16;
    assert KeyOk(cells, keys, k);
    var payload := cells[k].payload;
    assert payload[0..2] == NK;
    CellField(data, bins, cells, k, 0);
    CellField(data, bins, cells, k, 2);
    CellField(data, bins, cells, k, 16);
    CellField(data, bins, cells, k, 20);
    CellField(data, bins, cells, k, 28);
    CellField(data, bins, cells, k, 36);
    CellField(data, bins, cells, k, 40);
    CellField(data, bins, cells, k, 52);
    CellField(data, bins, cells, k, 72);
  }

  /** Entry `i` of a subkey list: the child's offset and the weighted sum of its name modulo 2^32. */
  lemma SubkeyOnDisk(data: seq<byte>, bins: Bins, cells: Cells, keys: Keys, vals: Vals, root: u32, k: u32, i: nat)
    requires Heap(data, bins, cells) && Records(cells, keys, vals) && Graph(keys, vals, root)
    requires k in keys && i < |keys[k].subkeys|
    ensures var p, item := 4100 + keys[k].subList, keys[k].subkeys[i];
            && p + 4 + 8 * i + 8 <= |data| && data[p..p + 2] == [0x6C, 0x68]
            && Get16(data, p + 2) == |keys[k].subkeys|
            && item.key in keys && keys[item.key].parent == k && Get32(data, p + 4 + 8 * i) == item.key
            && Get32(data, p + 8 + 8 * i) == Weighted(Chars(keys[item.key].name)) % 0x1_0000_0000
  {
    hide Heap, Get32, Get16, Weighted, Chars, Hash;
    assert KeyOk(cells, keys, k) && LinksOk(keys, vals, root, k) && ChildLink(keys, root, k, i);
    var list, items := keys[k].subList, keys[k].subkeys;
    var payload := cells[list].payload;
    assert payload[0..2] == LH && SubkeyItem(payload, items, i);
    CellField(data, bins, cells, list, 0);
    CellField(data, bins, cells, list, 2);
    CellField(data, bins, cells, list, 4 + 8 * i);
    CellField(data, bins, cells, list, 8 + 8 * i);
    HashIsSum(Chars(keys[items[i].key].name));
  }
}
