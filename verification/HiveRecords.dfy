/**
 The records of a hive: key nodes, key values and their lists, as they lie in the payloads of
 cells, and the graph they form. `Keys` and `Vals` are the abstract contents of a hive.
 */
module HiveRecords {
  import opened Bytes
  import opened HiveHeap
  import opened HiveOrder

  const KEY_HEADER: nat := 76
  const VALUE_HEADER: nat := 20
  const LIST_HEADER: nat := 4
  const KEY_HIVE_ENTRY: u16 := 0x0004
  const KEY_COMP_NAME: u16 := 0x0020
  const VALUE_COMP_NAME: u16 := 0x0001
  const DATA_IN_OFFSET: u32 := 0x8000_0000
  const NK: seq<byte> := [0x6E, 0x6B]
  const VK: seq<byte> := [0x76, 0x6B]
  const LH: seq<byte> := [0x6C, 0x68]

  /** The largest lists a freshly appended bin can hold; longer ones are never served. */
  const MAX_SUBKEYS: nat := 507
  const MAX_VALUES: nat := 1015

  /**
   A key node with the subkey items and value offsets its lists hold. `born`, the number of keys made
   before it, is not stored in the hive.
   */
  datatype KeyRec = KeyRec(name: seq<byte>, flags: u16, parent: u32, subkeys: seq<Item>, subList: u32,
                           values: seq<u32>, valList: u32, maxName: u32, born: nat)

  /** A key value; data of more than four bytes lies in the cell `dataCell`. */
  datatype ValRec = ValRec(key: u32, name: seq<byte>, typ: u32, data: seq<byte>, dataCell: u32)

  type Keys = map<u32, KeyRec>
  type Vals = map<u32, ValRec>

  function NewKey(name: seq<byte>, flags: u16, parent: u32, born: nat): KeyRec {
    KeyRec(name, flags, parent, [], NONE, [], NONE, 0, born)
  }

  // ------------------------------------------------------------------ payloads

  ghost predicate KeyFixed(p: seq<byte>, name: seq<byte>, flags: u16, parent: u32) {
    && KEY_HEADER + |name| <= |p|
    && p[0..2] == NK && Get16(p, 2) == flags && Get32(p, 16) == parent
    && Get16(p, 72) == |name| % 0x1_0000
    && p[KEY_HEADER..KEY_HEADER + |name|] == name
  }

  ghost predicate KeyLinks(p: seq<byte>, subkeys: nat, subList: u32, values: nat, valList: u32, maxName: u32) {
    && KEY_HEADER <= |p|
    && Get32(p, 20) == subkeys && Get32(p, 28) == subList
    && Get32(p, 36) == values && Get32(p, 40) == valList
    && Get32(p, 52) == maxName
  }

  ghost predicate KeyFields(p: seq<byte>, r: KeyRec) {
    && KeyFixed(p, r.name, r.flags, r.parent)
    && KeyLinks(p, |r.subkeys|, r.subList, |r.values|, r.valList, r.maxName)
  }

  ghost predicate SubkeyItem(p: seq<byte>, items: seq<Item>, i: nat)
    requires i < |items| && LIST_HEADER + 8 * |items| <= |p|
  {
    Get32(p, LIST_HEADER + 8 * i) == items[i].key && Get32(p, LIST_HEADER + 8 * i + 4) == items[i].hash
  }

  ghost predicate SubkeyListFields(p: seq<byte>, items: seq<Item>) {
    && LIST_HEADER + 8 * |items| <= |p|
    && p[0..2] == LH && Get16(p, 2) == |items|
    && forall i {:trigger SubkeyItem(p, items, i)} :: 0 <= i < |items| ==> SubkeyItem(p, items, i)
  }

  ghost predicate ValueItem(p: seq<byte>, offsets: seq<u32>, i: nat)
    requires i < |offsets| && 4 * |offsets| <= |p|
  {
    Get32(p, 4 * i) == offsets[i]
  }

  ghost predicate ValueListFields(p: seq<byte>, offsets: seq<u32>) {
    && 4 * |offsets| <= |p|
    && forall i {:trigger ValueItem(p, offsets, i)} :: 0 <= i < |offsets| ==> ValueItem(p, offsets, i)
  }

  ghost predicate ValueFields(p: seq<byte>, r: ValRec) {
    && VALUE_HEADER + |r.name| <= |p| && |r.data| < 0x8000_0000
    && p[0..2] == VK && Get16(p, 2) == |r.name| % 0x1_0000
    && Get32(p, 4) == (if |r.data| <= 4 then |r.data| + DATA_IN_OFFSET else |r.data|)
    && (if |r.data| <= 4 then p[8..8 + |r.data|] == r.data else Get32(p, 8) == r.dataCell)
    && Get32(p, 12) == r.typ
    && Get16(p, 16) == (if Ascii(r.name) then VALUE_COMP_NAME else 0)
    && p[VALUE_HEADER..VALUE_HEADER + |r.name|] == r.name
  }

  // ------------------------------------------------------------------ writing payloads

  /** The 76 bytes of a new key node header. */
  function KeyNodeHeader(flags: u16, parent: u32, nameLength: u16): (h: seq<byte>)
    ensures |h| == KEY_HEADER
  {
    (NK + LE16(flags) + Zeros(12))
    + (LE32(parent) + Zeros(8) + LE32(NONE))
    + (LE32(NONE) + Zeros(4) + LE32(NONE) + LE32(NONE))
    + (LE32(NONE) + Zeros(20) + LE16(nameLength) + Zeros(2))
  }

  lemma KeyNodeHeaderParts(flags: u16, parent: u32, nameLength: u16)
    ensures var h := KeyNodeHeader(flags, parent, nameLength);
      && h[0..2] == NK && h[2..4] == LE16(flags) && h[16..20] == LE32(parent) && h[20..24] == LE32(0)
      && h[28..32] == LE32(NONE) && h[36..40] == LE32(0) && h[40..44] == LE32(NONE) && h[52..56] == LE32(0)
      && h[72..74] == LE16(nameLength)
  {
    assert Zeros(12) == Zeros(12) && LE32(0) == Zeros(4);
    hide LE32, LE16;
    var a := NK + LE16(flags) + Zeros(12);
    var b := LE32(parent) + Zeros(8) + LE32(NONE);
    var c := LE32(NONE) + Zeros(4) + LE32(NONE) + LE32(NONE);
    var d := LE32(NONE) + Zeros(20) + LE16(nameLength) + Zeros(2);
    var h := KeyNodeHeader(flags, parent, nameLength);
    assert h == a + b + c + d;
    assert h[0..16] == a && h[16..32] == b && h[32..48] == c && h[48..76] == d;
    assert h[0..2] == a[0..2] && h[2..4] == a[2..4];
    assert h[16..20] == b[0..4] && h[20..24] == b[4..8] == Zeros(4) && h[28..32] == b[12..16];
    assert h[36..40] == c[4..8] && h[40..44] == c[8..12];
    assert h[52..56] == d[4..8] == Zeros(4) && h[72..74] == d[24..26];
  }

  lemma KeyNodeWritten(p: seq<byte>, name: seq<byte>, flags: u16, parent: u32, born: nat)
    requires KEY_HEADER + |name| <= |p|
    ensures KeyFields(Put(Put(p, 0, KeyNodeHeader(flags, parent, |name| % 0x1_0000)), KEY_HEADER, name),
                      NewKey(name, flags, parent, born))
  {
    hide LE32, LE16, KeyNodeHeader;
    var h := KeyNodeHeader(flags, parent, |name| % 0x1_0000);
    KeyNodeHeaderParts(flags, parent, |name| % 0x1_0000);
    var q := Put(Put(p, 0, h), KEY_HEADER, name);
    assert q[..KEY_HEADER] == h;
    assert q[0..2] == h[0..2];
    assert q[2..4] == h[2..4];
    Get16OfLE(q, 2, flags);
    assert q[16..20] == h[16..20];
    Get32OfLE(q, 16, parent);
    assert q[20..24] == h[20..24];
    Get32OfLE(q, 20, 0);
    assert q[28..32] == h[28..32];
    Get32OfLE(q, 28, NONE);
    assert q[36..40] == h[36..40];
    Get32OfLE(q, 36, 0);
    assert q[40..44] == h[40..44];
    Get32OfLE(q, 40, NONE);
    assert q[52..56] == h[52..56];
    Get32OfLE(q, 52, 0);
    assert q[72..74] == h[72..74];
    Get16OfLE(q, 72, |name| % 0x1_0000);
    assert q[KEY_HEADER..KEY_HEADER + |name|] == name;
  }

  lemma KeyLinkReads(p: seq<byte>, r: KeyRec)
    requires KeyFields(p, r)
    ensures KEY_HEADER <= |p|
    ensures Get32(p, 20) == |r.subkeys| && Get32(p, 28) == r.subList
    ensures Get32(p, 36) == |r.values| && Get32(p, 40) == r.valList && Get32(p, 52) == r.maxName
  {
  }

  /** Rewriting the link fields at 20, 28, 36, 40 or 52 keeps the fixed part of a key node. */
  lemma KeyFixedKept(p: seq<byte>, at: nat, v: u32, name: seq<byte>, flags: u16, parent: u32)
    requires KeyFixed(p, name, flags, parent) && 20 <= at <= 52
    ensures KeyFixed(Put(p, at, LE32(v)), name, flags, parent)
  {
    hide LE32;
    var q := Put(p, at, LE32(v));
    PutMiss(p, at, LE32(v), 0, 2);
    PutMiss(p, at, LE32(v), KEY_HEADER, KEY_HEADER + |name|);
  }

  lemma SubkeyLinksWritten(p: seq<byte>, r: KeyRec, count: u32, list: u32)
    requires KeyFields(p, r)
    ensures var q := Put(Put(p, 28, LE32(list)), 20, LE32(count));
      && KeyFixed(q, r.name, r.flags, r.parent)
      && KeyLinks(q, count, list, |r.values|, r.valList, r.maxName)
  {
    hide LE32;
    var q1 := Put(p, 28, LE32(list));
    var q := Put(q1, 20, LE32(count));
    KeyFixedKept(p, 28, list, r.name, r.flags, r.parent);
    KeyFixedKept(q1, 20, count, r.name, r.flags, r.parent);
    PutGet32(p, 28, list);
    PutGet32(q1, 20, count);
  }

  lemma MaxNameWritten(p: seq<byte>, r: KeyRec, count: u32, list: u32, maxName: u32)
    requires KeyFixed(p, r.name, r.flags, r.parent)
    requires KeyLinks(p, count, list, |r.values|, r.valList, r.maxName)
    ensures KEY_HEADER <= |p| && Get32(p, 52) == r.maxName
    ensures KeyFixed(Put(p, 52, LE32(maxName)), r.name, r.flags, r.parent)
    ensures KeyLinks(Put(p, 52, LE32(maxName)), count, list, |r.values|, r.valList, maxName)
  {
    hide LE32;
    KeyFixedKept(p, 52, maxName, r.name, r.flags, r.parent);
    PutGet32(p, 52, maxName);
  }

  lemma ValueLinksWritten(p: seq<byte>, r: KeyRec, count: u32, list: u32)
    requires KeyFields(p, r)
    ensures var q := Put(Put(p, 40, LE32(list)), 36, LE32(count));
      && KeyFixed(q, r.name, r.flags, r.parent)
      && KeyLinks(q, |r.subkeys|, r.subList, count, list, r.maxName)
  {
    hide LE32;
    var q1 := Put(p, 40, LE32(list));
    var q := Put(q1, 36, LE32(count));
    KeyFixedKept(p, 40, list, r.name, r.flags, r.parent);
    KeyFixedKept(q1, 36, count, r.name, r.flags, r.parent);
    PutGet32(p, 40, list);
    PutGet32(q1, 36, count);
  }

  /** A hash leaf whose first `n` items are written. */
  ghost predicate SubkeyListPrefix(p: seq<byte>, items: seq<Item>, n: nat) {
    && n <= |items| && LIST_HEADER + 8 * |items| <= |p|
    && p[0..2] == LH && Get16(p, 2) == |items| % 0x1_0000
    && forall i {:trigger SubkeyItem(p, items, i)} :: 0 <= i < n ==> SubkeyItem(p, items, i)
  }

  lemma SubkeyListStarted(p: seq<byte>, items: seq<Item>)
    requires LIST_HEADER + 8 * |items| <= |p|
    ensures SubkeyListPrefix(Put(Put(p, 0, LH), 2, LE16(|items| % 0x1_0000)), items, 0)
  {
    hide LE16;
    var p1 := Put(p, 0, LH);
    var count := |items| % 0x1_0000;
    PutGet16(p1, 2, count);
    PutMiss(p1, 2, LE16(count), 0, 2);
    PutHit(p, 0, LH);
  }

  lemma SubkeyListStep(p: seq<byte>, items: seq<Item>, n: nat)
    requires SubkeyListPrefix(p, items, n) && n < |items|
    ensures var at := LIST_HEADER + 8 * n;
      SubkeyListPrefix(Put(Put(p, at, LE32(items[n].key)), at + 4, LE32(items[n].hash)), items, n + 1)
  {
    hide LE32;
    var at := LIST_HEADER + 8 * n;
    var p1 := Put(p, at, LE32(items[n].key));
    var q := Put(p1, at + 4, LE32(items[n].hash));
    PutGet32(p, at, items[n].key);
    PutGet32(p1, at + 4, items[n].hash);
    assert q[0..2] == p[0..2];
    forall i {:trigger SubkeyItem(q, items, i)} | 0 <= i < n + 1
      ensures SubkeyItem(q, items, i)
    {
      if i < n {
        assert SubkeyItem(p, items, i);
      }
    }
  }

  lemma SubkeyListFinished(p: seq<byte>, items: seq<Item>)
    requires SubkeyListPrefix(p, items, |items|) && |items| < 0x1_0000
    ensures SubkeyListFields(p, items)
  {
  }

  ghost predicate ValueListPrefix(p: seq<byte>, offsets: seq<u32>, n: nat) {
    && n <= |offsets| && 4 * |offsets| <= |p|
    && forall i {:trigger ValueItem(p, offsets, i)} :: 0 <= i < n ==> ValueItem(p, offsets, i)
  }

  lemma ValueListStep(p: seq<byte>, offsets: seq<u32>, n: nat)
    requires ValueListPrefix(p, offsets, n) && n < |offsets|
    ensures ValueListPrefix(Put(p, 4 * n, LE32(offsets[n])), offsets, n + 1)
  {
    hide LE32;
    var q := Put(p, 4 * n, LE32(offsets[n]));
    PutGet32(p, 4 * n, offsets[n]);
    forall i {:trigger ValueItem(q, offsets, i)} | 0 <= i < n + 1
      ensures ValueItem(q, offsets, i)
    {
      if i < n {
        assert ValueItem(p, offsets, i);
      }
    }
  }

  function KeyValueHeader(nameLength: u16, size: u32, offset: u32, typ: u32, flags: u16): (h: seq<byte>)
    ensures |h| == VALUE_HEADER
  {
    VK + LE16(nameLength) + LE32(size) + LE32(offset) + LE32(typ) + LE16(flags) + Zeros(2)
  }

  /** Where the fields stand in a value header. */
  lemma KeyValueHeaderFields(nameLength: u16, size: u32, offset: u32, typ: u32, flags: u16)
    ensures var h := KeyValueHeader(nameLength, size, offset, typ, flags);
      && h[0..2] == VK && h[2..4] == LE16(nameLength) && h[4..8] == LE32(size)
      && h[8..12] == LE32(offset) && h[12..16] == LE32(typ) && h[16..18] == LE16(flags)
  {
    hide LE32, LE16;
  }

  /** The fields of a value record when `offset` holds the data itself or the cell of the data. */
  lemma KeyValueWritten(p: seq<byte>, r: ValRec, offset: u32)
    requires VALUE_HEADER + |r.name| <= |p| && |r.data| < 0x8000_0000
    requires if |r.data| <= 4 then LE32(offset)[..|r.data|] == r.data else offset == r.dataCell
    ensures var size := if |r.data| <= 4 then |r.data| + DATA_IN_OFFSET else |r.data|;
      var flags := if Ascii(r.name) then VALUE_COMP_NAME else 0;
      var h := KeyValueHeader(|r.name| % 0x1_0000, size, offset, r.typ, flags);
      ValueFields(Put(Put(p, 0, h), VALUE_HEADER, r.name), r)
  {
    hide LE32, LE16, Get16, Get32, KeyValueHeader, Ascii;
    var size := if |r.data| <= 4 then |r.data| + DATA_IN_OFFSET else |r.data|;
    var flags := if Ascii(r.name) then VALUE_COMP_NAME else 0;
    var h := KeyValueHeader(|r.name| % 0x1_0000, size, offset, r.typ, flags);
    var q := Put(Put(p, 0, h), VALUE_HEADER, r.name);
    KeyValueHeaderFields(|r.name| % 0x1_0000, size, offset, r.typ, flags);
    assert q[..VALUE_HEADER] == h;
    assert q[0..2] == h[0..2];
    assert q[2..4] == h[2..4];
    Get16OfLE(q, 2, |r.name| % 0x1_0000);
    assert q[4..8] == h[4..8];
    Get32OfLE(q, 4, size);
    assert q[8..12] == h[8..12];
    Get32OfLE(q, 8, offset);
    if |r.data| <= 4 {
      assert q[8..8 + |r.data|] == q[8..12][..|r.data|];
    }
    assert q[12..16] == h[12..16];
    Get32OfLE(q, 12, r.typ);
    assert q[16..18] == h[16..18];
    Get16OfLE(q, 16, flags);
    assert q[VALUE_HEADER..VALUE_HEADER + |r.name|] == r.name;
  }

  // ------------------------------------------------------------------ records in cells

  ghost predicate KeyNodeOk(cells: Cells, k: u32, r: KeyRec) {
    k in cells && cells[k].tag == KeyCell && KeyFields(cells[k].payload, r)
  }

  ghost predicate SubkeyListOk(cells: Cells, k: u32, r: KeyRec) {
    if r.subkeys == [] then r.subList == NONE
    else
      && r.subList in cells && cells[r.subList].tag == SubkeyList(k)
      && cells[r.subList].size == CellSize(LIST_HEADER + 8 * |r.subkeys|)
      && SubkeyListFields(cells[r.subList].payload, r.subkeys)
  }

  ghost predicate ValueListOk(cells: Cells, k: u32, r: KeyRec) {
    if r.values == [] then r.valList == NONE
    else
      && r.valList in cells && cells[r.valList].tag == ValueList(k)
      && cells[r.valList].size == CellSize(4 * |r.values|)
      && ValueListFields(cells[r.valList].payload, r.values)
  }

  ghost predicate KeyOk(cells: Cells, keys: Keys, k: u32)
    requires k in keys
  {
    && KeyNodeOk(cells, k, keys[k]) && SubkeyListOk(cells, k, keys[k]) && ValueListOk(cells, k, keys[k])
    && |keys[k].subkeys| <= MAX_SUBKEYS && |keys[k].values| <= MAX_VALUES
    && (keys[k].flags == KEY_COMP_NAME || keys[k].flags == KEY_HIVE_ENTRY + KEY_COMP_NAME)
  }

  ghost predicate DataOk(cells: Cells, v: u32, r: ValRec) {
    |r.data| > 4 ==>
      && r.dataCell in cells && cells[r.dataCell].tag == DataCell(v)
      && |r.data| <= |cells[r.dataCell].payload| && cells[r.dataCell].payload[..|r.data|] == r.data
  }

  ghost predicate ValOk(cells: Cells, vals: Vals, v: u32)
    requires v in vals
  {
    && v in cells && cells[v].tag == ValueCell && ValueFields(cells[v].payload, vals[v])
    && DataOk(cells, v, vals[v])
  }

  /** Every key and value lies in cells of its own, as the records say. */
  ghost predicate Records(cells: Cells, keys: Keys, vals: Vals) {
    && (forall k {:trigger KeyOk(cells, keys, k)} :: k in keys ==> KeyOk(cells, keys, k))
    && (forall v {:trigger ValOk(cells, vals, v)} :: v in vals ==> ValOk(cells, vals, v))
  }

  /** Every cell in use belongs to a record: nothing leaks. */
  ghost predicate CellOwned(cells: Cells, keys: Keys, vals: Vals, c: nat)
    requires c in cells
  {
    match cells[c].tag
    case Free => true
    case KeyCell => c in keys
    case ValueCell => c in vals
    case DataCell(v) => v in vals && |vals[v].data| > 4 && vals[v].dataCell == c
    case SubkeyList(k) => k in keys && keys[k].subkeys != [] && keys[k].subList == c
    case ValueList(k) => k in keys && keys[k].values != [] && keys[k].valList == c
  }

  ghost predicate NoLeak(cells: Cells, keys: Keys, vals: Vals) {
    forall c {:trigger CellOwned(cells, keys, vals, c)} :: c in cells ==> CellOwned(cells, keys, vals, c)
  }

  // ------------------------------------------------------------------ the graph of keys

  ghost predicate ChildLink(keys: Keys, root: u32, k: u32, i: nat)
    requires k in keys && i < |keys[k].subkeys|
  {
    var item := keys[k].subkeys[i];
    && item.key in keys && item.key != root && keys[item.key].parent == k && keys[k].born < keys[item.key].born
    && item.hash == NameHash(keys[item.key].name)
  }

  ghost predicate ValueLink(keys: Keys, vals: Vals, k: u32, i: nat)
    requires k in keys && i < |keys[k].values|
  {
    keys[k].values[i] in vals && vals[keys[k].values[i]].key == k
  }

  ghost predicate DistinctChildren(keys: Keys, k: u32)
    requires k in keys
  {
    forall i, j :: 0 <= i < j < |keys[k].subkeys| ==> keys[k].subkeys[i].key != keys[k].subkeys[j].key
  }

  ghost predicate DistinctValues(keys: Keys, k: u32)
    requires k in keys
  {
    forall i, j :: 0 <= i < j < |keys[k].values| ==> keys[k].values[i] != keys[k].values[j]
  }

  ghost predicate ListedUnder(keys: Keys, k: u32, c: u32) {
    k in keys && exists i :: 0 <= i < |keys[k].subkeys| && keys[k].subkeys[i].key == c
  }

  /** Key `k`: its children and values are its own, listed once, sorted; and it is listed by its parent. */
  ghost predicate LinksOk(keys: Keys, vals: Vals, root: u32, k: u32)
    requires k in keys
  {
    && (forall i {:trigger ChildLink(keys, root, k, i)} :: 0 <= i < |keys[k].subkeys| ==> ChildLink(keys, root, k, i))
    && (forall i {:trigger ValueLink(keys, vals, k, i)} :: 0 <= i < |keys[k].values| ==> ValueLink(keys, vals, k, i))
    && DistinctChildren(keys, k) && DistinctValues(keys, k)
    && Sorted(Hashes(keys[k].subkeys))
    && (k != root ==> ListedUnder(keys, keys[k].parent, k))
    && keys[k].born < |keys|
  }

  ghost predicate ValueOwned(keys: Keys, vals: Vals, v: u32)
    requires v in vals
  {
    vals[v].key in keys && v in keys[vals[v].key].values
  }

  /** The keys form one tree below `root`, and every value belongs to one key. */
  ghost predicate Graph(keys: Keys, vals: Vals, root: u32) {
    && root in keys
    && (forall k {:trigger LinksOk(keys, vals, root, k)} :: k in keys ==> LinksOk(keys, vals, root, k))
    && (forall v {:trigger ValueOwned(keys, vals, v)} :: v in vals ==> ValueOwned(keys, vals, v))
  }

  // ------------------------------------------------------------------ frames

  lemma KeyOkFrame(cells: Cells, cells': Cells, keys: Keys, keys': Keys, k: u32)
    requires k in keys && k in keys' && keys'[k] == keys[k] && KeyOk(cells, keys, k)
    requires k in cells' && cells'[k] == cells[k]
    requires keys[k].subkeys != [] ==> keys[k].subList in cells' && cells'[keys[k].subList] == cells[keys[k].subList]
    requires keys[k].values != [] ==> keys[k].valList in cells' && cells'[keys[k].valList] == cells[keys[k].valList]
    ensures KeyOk(cells', keys', k)
  {
  }

  lemma ValOkFrame(cells: Cells, cells': Cells, vals: Vals, vals': Vals, v: u32)
    requires v in vals && v in vals' && vals'[v] == vals[v] && ValOk(cells, vals, v)
    requires v in cells' && cells'[v] == cells[v]
    requires |vals[v].data| > 4 ==> vals[v].dataCell in cells' && cells'[vals[v].dataCell] == cells[vals[v].dataCell]
    ensures ValOk(cells', vals', v)
  {
  }

  /** Records survive any change that leaves all used cells but one free-to-take cell alone. */
  lemma RecordsGrown(cells: Cells, cells': Cells, keys: Keys, vals: Vals, o: nat)
    requires Records(cells, keys, vals) && SameUsed(cells, cells', o) && !UsedIn(cells, o)
    ensures Records(cells', keys, vals)
  {
    forall k {:trigger KeyOk(cells', keys, k)} | k in keys
      ensures KeyOk(cells', keys, k)
    {
      assert KeyOk(cells, keys, k);
      assert UsedIn(cells, k);
      assert keys[k].subkeys != [] ==> UsedIn(cells, keys[k].subList);
      assert keys[k].values != [] ==> UsedIn(cells, keys[k].valList);
      KeyOkFrame(cells, cells', keys, keys, k);
    }
    forall v {:trigger ValOk(cells', vals, v)} | v in vals
      ensures ValOk(cells', vals, v)
    {
      assert ValOk(cells, vals, v);
      assert UsedIn(cells, v);
      assert |vals[v].data| > 4 ==> UsedIn(cells, vals[v].dataCell);
      ValOkFrame(cells, cells', vals, vals, v);
    }
  }

  // ------------------------------------------------------------------ changing one key

  /** Outside `touched` the same cells are in use with the same contents. */
  ghost predicate SameUsedOutside(cells: Cells, cells': Cells, touched: set<nat>) {
    forall c {:trigger UsedIn(cells, c)} {:trigger UsedIn(cells', c)} :: c !in touched ==>
      UsedIn(cells, c) == UsedIn(cells', c) && (UsedIn(cells, c) ==> cells'[c] == cells[c])
  }

  /** `touched` has no cell of any record but `k`, and after the change only cells that belong to a record. */
  ghost predicate TouchesOnly(cells: Cells, cells': Cells, keys': Keys, vals: Vals, k: u32, touched: set<nat>) {
    && (forall c {:trigger UsedIn(cells, c)} :: c in touched && UsedIn(cells, c) ==>
          c == k || cells[c].tag == SubkeyList(k) || cells[c].tag == ValueList(k))
    && (forall c {:trigger UsedIn(cells', c)} :: c in touched && UsedIn(cells', c) ==>
          CellOwned(cells', keys', vals, c))
  }

  ghost predicate KeepsLists(r: KeyRec, r': KeyRec, touched: set<nat>) {
    && (r.subkeys != [] && r.subList as nat !in touched ==> r'.subkeys != [] && r'.subList == r.subList)
    && (r.values != [] && r.valList as nat !in touched ==> r'.values != [] && r'.valList == r.valList)
  }

  lemma KeyRelinked(cells: Cells, cells': Cells, keys: Keys, vals: Vals, k: u32, r': KeyRec, touched: set<nat>)
    requires Records(cells, keys, vals) && NoLeak(cells, keys, vals) && k in keys
    requires SameUsedOutside(cells, cells', touched)
    requires TouchesOnly(cells, cells', keys[k := r'], vals, k, touched)
    requires KeepsLists(keys[k], r', touched)
    requires KeyOk(cells', keys[k := r'], k)
    ensures Records(cells', keys[k := r'], vals)
    ensures NoLeak(cells', keys[k := r'], vals)
  {
    var keys' := keys[k := r'];
    forall j {:trigger KeyOk(cells', keys', j)} | j in keys'
      ensures KeyOk(cells', keys', j)
    {
      if j != k {
        assert KeyOk(cells, keys, j) && KeyOk(cells, keys, k);
        RelinkedOther(cells, cells', keys, keys', vals, k, j, touched);
      }
    }
    forall v {:trigger ValOk(cells', vals, v)} | v in vals
      ensures ValOk(cells', vals, v)
    {
      assert ValOk(cells, vals, v) && KeyOk(cells, keys, k);
      RelinkedValue(cells, cells', keys', vals, k, v, touched);
    }
    forall c {:trigger CellOwned(cells', keys', vals, c)} | c in cells'
      ensures CellOwned(cells', keys', vals, c)
    {
      if UsedIn(cells', c) && c !in touched {
        assert UsedIn(cells, c) && CellOwned(cells, keys, vals, c);
      }
    }
  }

  lemma RelinkedOther(cells: Cells, cells': Cells, keys: Keys, keys': Keys, vals: Vals, k: u32, j: u32,
                      touched: set<nat>)
    requires j in keys && j in keys' && keys'[j] == keys[j] && j != k && KeyOk(cells, keys, j)
    requires k in cells && cells[k].tag == KeyCell
    requires SameUsedOutside(cells, cells', touched) && TouchesOnly(cells, cells', keys', vals, k, touched)
    ensures KeyOk(cells', keys', j)
  {
    hide KeyFields, SubkeyListFields, ValueListFields;
    assert UsedIn(cells, j);
    assert keys[j].subkeys != [] ==> UsedIn(cells, keys[j].subList);
    assert keys[j].values != [] ==> UsedIn(cells, keys[j].valList);
    KeyOkFrame(cells, cells', keys, keys', j);
  }

  lemma RelinkedValue(cells: Cells, cells': Cells, keys': Keys, vals: Vals, k: u32, v: u32, touched: set<nat>)
    requires v in vals && ValOk(cells, vals, v) && k in cells && cells[k].tag == KeyCell
    requires SameUsedOutside(cells, cells', touched) && TouchesOnly(cells, cells', keys', vals, k, touched)
    ensures ValOk(cells', vals, v)
  {
    hide ValueFields;
    assert UsedIn(cells, v);
    assert |vals[v].data| > 4 ==> UsedIn(cells, vals[v].dataCell);
    ValOkFrame(cells, cells', vals, vals, v);
  }

  /** List cells that `MAX_SUBKEYS` and `MAX_VALUES` allow are small enough to be freed again. */
  lemma ListSizes(subkeys: nat, values: nat)
    ensures subkeys <= MAX_SUBKEYS ==> CellSize(LIST_HEADER + 8 * subkeys) <= MAX_FREE
    ensures values <= MAX_VALUES ==> CellSize(4 * values) <= MAX_FREE
    ensures subkeys <= MAX_SUBKEYS + 1 ==>
      (FitsBin(CellSize(LIST_HEADER + 8 * subkeys)) <==> subkeys <= MAX_SUBKEYS)
    ensures values <= MAX_VALUES + 1 ==> (FitsBin(CellSize(4 * values)) <==> values <= MAX_VALUES)
  {
    assert CellSize(LIST_HEADER + 8 * subkeys) == 8 + 8 * subkeys;
    assert 4 + 4 * values <= CellSize(4 * values) <= 8 + 4 * values;
  }

  /** The subkey list of `k` is now the cell `l` with `items`; nothing else changed. */
  ghost predicate SubkeysRelisted(cells: Cells, cells': Cells, k: u32, r: KeyRec, l: u32, items: seq<Item>) {
    && SameUsedOutside(cells, cells', if r.subkeys == [] then {l as nat} else {r.subList as nat, l})
    && l in cells' && cells'[l].tag == SubkeyList(k)
    && cells'[l].size == CellSize(LIST_HEADER + 8 * |items|)
    && SubkeyListFields(cells'[l].payload, items)
    && (r.subkeys != [] && r.subList != l ==> !UsedIn(cells', r.subList))
    && (r.subkeys == [] || r.subList != l ==> !UsedIn(cells, l))
  }

  ghost predicate ValuesRelisted(cells: Cells, cells': Cells, k: u32, r: KeyRec, l: u32, offsets: seq<u32>) {
    && SameUsedOutside(cells, cells', if r.values == [] then {l as nat} else {r.valList as nat, l})
    && l in cells' && cells'[l].tag == ValueList(k)
    && cells'[l].size == CellSize(4 * |offsets|)
    && ValueListFields(cells'[l].payload, offsets)
    && (r.values != [] && r.valList != l ==> !UsedIn(cells', r.valList))
    && (r.values == [] || r.valList != l ==> !UsedIn(cells, l))
  }

  function SetPayload(cells: Cells, c: nat, p: seq<byte>): Cells
    requires c in cells
  {
    cells[c := cells[c].(payload := p)]
  }

  lemma SubkeysRelinked(cells: Cells, cells': Cells, keys: Keys, vals: Vals, k: u32,
                        l: u32, items: seq<Item>, maxName: u32, p: seq<byte>)
    requires Records(cells, keys, vals) && NoLeak(cells, keys, vals) && k in keys
    requires SubkeysRelisted(cells, cells', k, keys[k], l, items) && 0 < |items| <= MAX_SUBKEYS
    requires KeyFields(p, keys[k].(subkeys := items, subList := l, maxName := maxName))
    ensures k in cells'
    ensures var keys' := keys[k := keys[k].(subkeys := items, subList := l, maxName := maxName)];
      Records(SetPayload(cells', k, p), keys', vals) && NoLeak(SetPayload(cells', k, p), keys', vals)
  {
    hide KeyFields, SubkeyListFields, ValueListFields;
    assert KeyOk(cells, keys, k);
    assert UsedIn(cells, k);
    var r, r' := keys[k], keys[k].(subkeys := items, subList := l, maxName := maxName);
    assert k != l;
    var cells'', keys' := SetPayload(cells', k, p), keys[k := r'];
    var lists: set<nat> := if r.subkeys == [] then {l as nat} else {r.subList as nat, l};
    var touched: set<nat> := lists + {k};
    assert r.values != [] ==> UsedIn(cells, r.valList);
    assert KeyOk(cells'', keys', k);
    assert SameUsedOutside(cells, cells'', touched) by {
      forall c {:trigger UsedIn(cells, c)} {:trigger UsedIn(cells'', c)} | c !in touched
        ensures UsedIn(cells, c) == UsedIn(cells'', c) && (UsedIn(cells, c) ==> cells''[c] == cells[c])
      {
        assert UsedIn(cells', c) == UsedIn(cells'', c);
      }
    }
    assert TouchesOnly(cells, cells'', keys', vals, k, touched) by {
      assert UsedIn(cells'', r.subList) == UsedIn(cells', r.subList);
    }
    KeyRelinked(cells, cells'', keys, vals, k, r', touched);
  }

  lemma ValuesRelinked(cells: Cells, cells': Cells, keys: Keys, vals: Vals, k: u32,
                       l: u32, offsets: seq<u32>, p: seq<byte>)
    requires Records(cells, keys, vals) && NoLeak(cells, keys, vals) && k in keys
    requires ValuesRelisted(cells, cells', k, keys[k], l, offsets) && 0 < |offsets| <= MAX_VALUES
    requires KeyFields(p, keys[k].(values := offsets, valList := l))
    ensures k in cells'
    ensures var keys' := keys[k := keys[k].(values := offsets, valList := l)];
      Records(SetPayload(cells', k, p), keys', vals) && NoLeak(SetPayload(cells', k, p), keys', vals)
  {
    hide KeyFields, SubkeyListFields, ValueListFields;
    assert KeyOk(cells, keys, k);
    assert UsedIn(cells, k);
    var r, r' := keys[k], keys[k].(values := offsets, valList := l);
    assert k != l;
    var cells'', keys' := SetPayload(cells', k, p), keys[k := r'];
    var lists: set<nat> := if r.values == [] then {l as nat} else {r.valList as nat, l};
    var touched: set<nat> := lists + {k};
    assert r.subkeys != [] ==> UsedIn(cells, r.subList);
    assert KeyOk(cells'', keys', k);
    assert SameUsedOutside(cells, cells'', touched) by {
      forall c {:trigger UsedIn(cells, c)} {:trigger UsedIn(cells'', c)} | c !in touched
        ensures UsedIn(cells, c) == UsedIn(cells'', c) && (UsedIn(cells, c) ==> cells''[c] == cells[c])
      {
        assert UsedIn(cells', c) == UsedIn(cells'', c);
      }
    }
    assert TouchesOnly(cells, cells'', keys', vals, k, touched) by {
      assert UsedIn(cells'', r.valList) == UsedIn(cells', r.valList);
    }
    KeyRelinked(cells, cells'', keys, vals, k, r', touched);
  }

  // ------------------------------------------------------------------ adding records

  /** A new used cell `k` joins as a key that has no lists yet. */
  lemma KeyJoins(cells: Cells, cells': Cells, keys: Keys, vals: Vals, k: u32, size: nat, r: KeyRec)
    requires Records(cells, keys, vals) && NoLeak(cells, keys, vals)
    requires Grown(cells, cells', k, size, KeyCell) && KeyFields(cells'[k].payload, r)
    requires r.subkeys == [] && r.subList == NONE && r.values == [] && r.valList == NONE
    requires r.flags == KEY_COMP_NAME || r.flags == KEY_HIVE_ENTRY + KEY_COMP_NAME
    ensures k !in keys && k !in vals
    ensures Records(cells', keys[k := r], vals) && NoLeak(cells', keys[k := r], vals)
  {
    hide KeyFields, SubkeyListFields, ValueListFields;
    assert !UsedIn(cells, k);
    assert k !in keys by {
      assert k in keys ==> KeyOk(cells, keys, k);
    }
    assert k !in vals by {
      assert k in vals ==> ValOk(cells, vals, k);
    }
    RecordsGrown(cells, cells', keys, vals, k);
    var keys' := keys[k := r];
    forall j {:trigger KeyOk(cells', keys', j)} | j in keys'
      ensures KeyOk(cells', keys', j)
    {
      assert j in keys ==> KeyOk(cells', keys, j);
    }
    forall c {:trigger CellOwned(cells', keys', vals, c)} | c in cells'
      ensures CellOwned(cells', keys', vals, c)
    {
      if c != k && UsedIn(cells', c) {
        assert UsedIn(cells, c) && CellOwned(cells, keys, vals, c);
      }
    }
  }

  /** The cells of a new value: its record and, if it has more than four bytes, its data. */
  ghost predicate ValueGrown(cells: Cells, cells': Cells, v: u32, r: ValRec) {
    && SameUsedOutside(cells, cells', if |r.data| <= 4 then {v as nat} else {v as nat, r.dataCell})
    && !UsedIn(cells, v) && v in cells' && cells'[v].tag == ValueCell
    && ValueFields(cells'[v].payload, r)
    && DataOk(cells', v, r)
    && (|r.data| > 4 ==> !UsedIn(cells, r.dataCell))
  }

  lemma ValueJoins(cells: Cells, cells': Cells, keys: Keys, vals: Vals, v: u32, r: ValRec)
    requires Records(cells, keys, vals) && NoLeak(cells, keys, vals)
    requires ValueGrown(cells, cells', v, r)
    ensures v !in keys && v !in vals
    ensures Records(cells', keys, vals[v := r]) && NoLeak(cells', keys, vals[v := r])
  {
    hide KeyFields, SubkeyListFields, ValueListFields, ValueFields;
    assert v !in keys by {
      assert v in keys ==> KeyOk(cells, keys, v);
    }
    assert v !in vals by {
      assert v in vals ==> ValOk(cells, vals, v);
    }
    var vals' := vals[v := r];
    forall j {:trigger KeyOk(cells', keys, j)} | j in keys
      ensures KeyOk(cells', keys, j)
    {
      assert KeyOk(cells, keys, j);
      assert UsedIn(cells, j);
      assert keys[j].subkeys != [] ==> UsedIn(cells, keys[j].subList);
      assert keys[j].values != [] ==> UsedIn(cells, keys[j].valList);
      KeyOkFrame(cells, cells', keys, keys, j);
    }
    forall w {:trigger ValOk(cells', vals', w)} | w in vals'
      ensures ValOk(cells', vals', w)
    {
      if w != v {
        assert ValOk(cells, vals, w);
        assert UsedIn(cells, w);
        assert |vals[w].data| > 4 ==> UsedIn(cells, vals[w].dataCell);
        ValOkFrame(cells, cells', vals, vals', w);
      }
    }
    forall c {:trigger CellOwned(cells', keys, vals', c)} | c in cells'
      ensures CellOwned(cells', keys, vals', c)
    {
      if UsedIn(cells, c) {
        assert CellOwned(cells, keys, vals, c);
      } else {
        assert UsedIn(cells', c) ==> c == v || c == r.dataCell;
      }
    }
  }

  lemma ValueInline(cells: Cells, cells': Cells, v: u32, r: ValRec, size: nat)
    requires Grown(cells, cells', v, size, ValueCell) && |r.data| <= 4
    ensures ValuePlaced(cells, cells', v, r, size)
  {
    forall c {:trigger UsedIn(cells, c)} {:trigger UsedIn(cells', c)} | c !in {v as nat}
      ensures UsedIn(cells, c) == UsedIn(cells', c) && (UsedIn(cells, c) ==> cells'[c] == cells[c])
    {
    }
  }

  /** As `ValueGrown`, before the record of the value is written into its cell of `size` bytes. */
  ghost predicate ValuePlaced(cells: Cells, cells': Cells, v: u32, r: ValRec, size: nat) {
    && SameUsedOutside(cells, cells', if |r.data| <= 4 then {v as nat} else {v as nat, r.dataCell})
    && !UsedIn(cells, v) && v in cells' && cells'[v].tag == ValueCell
    && |cells'[v].payload| == size - CELL_HEADER
    && DataOk(cells', v, r)
    && (|r.data| > 4 ==> !UsedIn(cells, r.dataCell))
  }

  lemma PlacedValueWritten(cells: Cells, cells': Cells, v: u32, r: ValRec, size: nat, p: seq<byte>)
    requires ValuePlaced(cells, cells', v, r, size) && ValueFields(p, r)
    ensures ValueGrown(cells, SetPayload(cells', v, p), v, r)
  {
    hide ValueFields;
    var cells'' := SetPayload(cells', v, p);
    var touched := if |r.data| <= 4 then {v as nat} else {v as nat, r.dataCell};
    forall c {:trigger UsedIn(cells, c)} {:trigger UsedIn(cells'', c)} | c !in touched
      ensures UsedIn(cells, c) == UsedIn(cells'', c) && (UsedIn(cells, c) ==> cells''[c] == cells[c])
    {
      assert UsedIn(cells', c) == UsedIn(cells'', c);
    }
  }

  /** The cell of the data joins after the cell of the record. */
  lemma ValueWithData(cells: Cells, mid: Cells, cells': Cells, v: u32, r: ValRec, size: nat, dataSize: nat)
    requires Grown(cells, mid, v, size, ValueCell) && Grown(mid, cells', r.dataCell, dataSize, DataCell(v))
    requires |r.data| > 4 && |r.data| <= dataSize - CELL_HEADER && cells'[r.dataCell].payload[..|r.data|] == r.data
    ensures ValuePlaced(cells, cells', v, r, size)
  {
    var d := r.dataCell;
    assert UsedIn(mid, v) && !UsedIn(mid, d);
    forall c {:trigger UsedIn(cells, c)} {:trigger UsedIn(cells', c)} | c !in {v as nat, d}
      ensures UsedIn(cells, c) == UsedIn(cells', c) && (UsedIn(cells, c) ==> cells'[c] == cells[c])
    {
      assert UsedIn(mid, c) == UsedIn(cells, c);
    }
    assert !UsedIn(cells, d) by {
      assert UsedIn(mid, d) == UsedIn(cells, d);
    }
  }

  // ------------------------------------------------------------------ what fits, and what it costs

  predicate KeyFits(name: seq<byte>) {
    FitsBin(CellSize(KEY_HEADER + |name|))
  }

  function KeyGrowth(name: seq<byte>): nat {
    NewBinSize(CellSize(KEY_HEADER + |name|))
  }

  function SubkeyListGrowth(count: nat): nat {
    NewBinSize(CellSize(LIST_HEADER + 8 * count))
  }

  function ValueListGrowth(count: nat): nat {
    NewBinSize(CellSize(4 * count))
  }

  predicate ValueFits(name: seq<byte>, data: seq<byte>) {
    FitsBin(CellSize(VALUE_HEADER + |name|)) && (|data| > 4 ==> FitsBin(CellSize(|data|)))
  }

  function ValueGrowth(name: seq<byte>, data: seq<byte>): nat {
    NewBinSize(CellSize(VALUE_HEADER + |name|)) + if |data| > 4 then NewBinSize(CellSize(|data|)) else 0
  }

  // ------------------------------------------------------------------ data inside the offset field

  /** The first `n` bytes of `data` as a little-endian number. */
  function LittleEndian(data: seq<byte>, n: nat): (v: nat)
    requires n <= |data| && n <= 4
    ensures v < Weight(n)
  {
    if n == 0 then 0 else LittleEndian(data, n - 1) + data[n - 1] as nat * Weight(n - 1)
  }

  function Weight(n: nat): (w: nat)
    requires n <= 4
    ensures w <= 0x1_0000_0000
  {
    if n == 0 then 1 else if n == 1 then 0x100 else if n == 2 then 0x1_0000
    else if n == 3 then 0x100_0000 else 0x1_0000_0000
  }

  lemma LittleEndianBytes(data: seq<byte>)
    requires |data| <= 4
    ensures LittleEndian(data, |data|) < 0x1_0000_0000
    ensures LE32(LittleEndian(data, |data|))[..|data|] == data
  {
    hide LE32, Get32, LittleEndian, Zeros;
    var padded := data + Zeros(4 - |data|);
    LittleEndianPadded(data);
    LE32OfGet(padded, 0);
    assert padded[0..4][..|data|] == data;
  }

  /** Missing bytes count as zero. */
  lemma LittleEndianPadded(data: seq<byte>)
    requires |data| <= 4
    ensures LittleEndian(data, |data|) == Get32(data + Zeros(4 - |data|), 0)
  {
    if |data| > 0 {
      assert LittleEndian(data, 1) == data[0];
    }
    if |data| > 1 {
      assert LittleEndian(data, 2) == data[0] as int + 0x100 * data[1] as int;
    }
    if |data| > 2 {
      assert LittleEndian(data, 3) == data[0] as int + 0x100 * data[1] as int + 0x1_0000 * data[2] as int;
    }
  }

  // ------------------------------------------------------------------ growing the graph

  /** `key` has one more subkey; all other keys, and everything else about `key`, are as before. */
  ghost predicate SubkeyAdded(keys: Keys, keys': Keys, key: u32, item: Item, nameLength: nat) {
    && key in keys && key in keys'
    && keys' == keys[key := keys'[key]]
    && keys'[key] == keys[key].(subkeys := SortByHash(keys[key].subkeys + [item]),
                                subList := keys'[key].subList, maxName := keys'[key].maxName)
    && keys'[key].maxName == if nameLength > keys[key].maxName then nameLength else keys[key].maxName
  }

  /** `key` has one more value, at the end; all other keys, and everything else about `key`, are as before. */
  ghost predicate ValueAdded(keys: Keys, keys': Keys, key: u32, value: u32) {
    && key in keys && key in keys'
    && keys' == keys[key := keys'[key]]
    && keys'[key] == keys[key].(values := keys[key].values + [value], valList := keys'[key].valList)
  }

  /** In a sorted list the new item is inserted and the others keep their order. */
  lemma SubkeyInserted(items: seq<Item>, x: Item) returns (p: nat)
    requires Sorted(Hashes(items))
    ensures p <= |items| && SortByHash(items + [x]) == InsertAt(items, p, x)
    ensures Sorted(Hashes(SortByHash(items + [x])))
  {
    SortOfSorted(items);
    SortSnoc(items, x);
    p := Place(Hashes(SortByHash(items)), x.hash);
    HashesOfSorted(items + [x]);
  }

  lemma GraphGrows(keys: Keys, keys': Keys, vals: Vals, root: u32, parent: u32, k: u32,
                   name: seq<byte>, flags: u16, length: nat)
    requires Graph(keys, vals, root) && parent in keys && k !in keys
    requires SubkeyAdded(keys[k := NewKey(name, flags, parent, |keys|)], keys', parent, Item(k, NameHash(name)), length)
    ensures Graph(keys', vals, root)
  {
    hide SortByHash, NameHash, InsertAt, Hashes, Sorted;
    var item := Item(k, NameHash(name));
    assert LinksOk(keys, vals, root, parent);
    var p := SubkeyInserted(keys[parent].subkeys, item);
    NewChildLinks(keys, keys', vals, root, parent, k, item, p);
    forall j {:trigger LinksOk(keys', vals, root, j)} | j in keys'
      ensures LinksOk(keys', vals, root, j)
    {
      if j == k {
        assert keys'[parent].subkeys[p].key == k;
        assert Sorted(Hashes([])) by { EmptySorted(); }
      } else if j != parent {
        assert LinksOk(keys, vals, root, j);
        OtherLinks(keys, keys', vals, root, parent, k, item, p, j);
      }
    }
    forall v {:trigger ValueOwned(keys', vals, v)} | v in vals
      ensures ValueOwned(keys', vals, v)
    {
      assert ValueOwned(keys, vals, v);
    }
  }

  lemma EmptySorted()
    ensures Sorted(Hashes([]))
  {
  }

  /** What `GraphGrows` knows about the two states. */
  ghost predicate ChildInserted(keys: Keys, keys': Keys, root: u32, parent: u32, k: u32, item: Item, p: nat) {
    && parent in keys && k !in keys && root in keys && k in keys' && parent in keys' && item.key == k
    && keys'.Keys == keys.Keys + {k} && |keys'| == |keys| + 1
    && keys'[k].born == |keys| && keys'[parent].born == keys[parent].born
    && keys'[k].parent == parent && item.hash == NameHash(keys'[k].name)
    && keys'[k].subkeys == [] && keys'[k].values == []
    && p <= |keys[parent].subkeys| && keys'[parent].subkeys == InsertAt(keys[parent].subkeys, p, item)
    && keys'[parent].values == keys[parent].values && keys'[parent].parent == keys[parent].parent
    && keys'[parent].name == keys[parent].name
    && forall j {:trigger keys'[j]} :: j in keys && j != parent ==> keys'[j] == keys[j]
  }

  lemma ChildLinkKept(keys: Keys, keys': Keys, root: u32, parent: u32, k: u32, item: Item, p: nat, j: u32, i: nat)
    requires ChildInserted(keys, keys', root, parent, k, item, p) && j in keys && j != parent
    requires i < |keys[j].subkeys| && ChildLink(keys, root, j, i)
    ensures ChildLink(keys', root, j, i)
  {
    hide InsertAt, NameHash;
    assert keys'[j] == keys[j];
    var c := keys[j].subkeys[i].key;
    assert keys'[c].name == keys[c].name && keys'[c].parent == keys[c].parent && keys'[c].born == keys[c].born;
  }

  lemma OtherLinks(keys: Keys, keys': Keys, vals: Vals, root: u32, parent: u32, k: u32, item: Item, p: nat, j: u32)
    requires ChildInserted(keys, keys', root, parent, k, item, p) && j in keys && j != parent
    requires LinksOk(keys, vals, root, j)
    ensures LinksOk(keys', vals, root, j)
  {
    hide NameHash, Hashes, Sorted;
    assert keys'[j] == keys[j];
    forall i {:trigger ChildLink(keys', root, j, i)} | 0 <= i < |keys'[j].subkeys|
      ensures ChildLink(keys', root, j, i)
    {
      assert ChildLink(keys, root, j, i);
      ChildLinkKept(keys, keys', root, parent, k, item, p, j, i);
    }
    forall i {:trigger ValueLink(keys', vals, j, i)} | 0 <= i < |keys'[j].values|
      ensures ValueLink(keys', vals, j, i)
    {
      assert ValueLink(keys, vals, j, i);
    }
    if j != root {
      ListedKept(keys, keys', root, parent, k, item, p, keys[j].parent, j);
    }
  }

  lemma ListedKept(keys: Keys, keys': Keys, root: u32, parent: u32, k: u32, item: Item, p: nat, q: u32, c: u32)
    requires ChildInserted(keys, keys', root, parent, k, item, p) && ListedUnder(keys, q, c)
    ensures ListedUnder(keys', q, c)
  {
    var i :| 0 <= i < |keys[q].subkeys| && keys[q].subkeys[i].key == c;
    if q == parent {
      var i' := if i < p then i else i + 1;
      assert keys'[q].subkeys[i'] == keys[q].subkeys[i];
    } else {
      assert keys'[q] == keys[q];
    }
  }

  /** The links of the parent after the insertion. */
  lemma NewChildLinks(keys: Keys, keys': Keys, vals: Vals, root: u32, parent: u32, k: u32, item: Item, p: nat)
    requires ChildInserted(keys, keys', root, parent, k, item, p) && LinksOk(keys, vals, root, parent)
    requires Sorted(Hashes(keys'[parent].subkeys))
    ensures LinksOk(keys', vals, root, parent)
  {
    hide NameHash, Hashes, Sorted;
    var was, now := keys[parent].subkeys, keys'[parent].subkeys;
    forall i {:trigger ChildLink(keys', root, parent, i)} | 0 <= i < |now|
      ensures ChildLink(keys', root, parent, i)
    {
      if i != p {
        var i' := if i < p then i else i - 1;
        assert now[i] == was[i'] && ChildLink(keys, root, parent, i');
        assert keys'[was[i'].key].name == keys[was[i'].key].name && keys'[was[i'].key].born == keys[was[i'].key].born;
      }
    }
    forall i, j | 0 <= i < j < |now|
      ensures now[i].key != now[j].key
    {
      var i', j' := if i < p then i else i - 1, if j < p then j else j - 1;
      assert i != p ==> now[i] == was[i'] && ChildLink(keys, root, parent, i');
      assert j != p ==> now[j] == was[j'] && ChildLink(keys, root, parent, j');
    }
    forall i {:trigger ValueLink(keys', vals, parent, i)} | 0 <= i < |keys'[parent].values|
      ensures ValueLink(keys', vals, parent, i)
    {
      assert ValueLink(keys, vals, parent, i);
    }
    if parent != root {
      ListedKept(keys, keys', root, parent, k, item, p, keys[parent].parent, parent);
    }
  }

  lemma GraphGainsValue(keys: Keys, keys': Keys, vals: Vals, root: u32, k: u32, v: u32, r: ValRec)
    requires Graph(keys, vals, root) && v !in vals && r.key == k
    requires ValueAdded(keys, keys', k, v)
    ensures Graph(keys', vals[v := r], root)
  {
    hide NameHash, Hashes, Sorted;
    var vals' := vals[v := r];
    forall j {:trigger LinksOk(keys', vals', root, j)} | j in keys'
      ensures LinksOk(keys', vals', root, j)
    {
      assert LinksOk(keys, vals, root, j);
      ValueGainedLinks(keys, keys', vals, root, k, v, r, j);
    }
    forall w {:trigger ValueOwned(keys', vals', w)} | w in vals'
      ensures ValueOwned(keys', vals', w)
    {
      if w != v {
        assert ValueOwned(keys, vals, w);
      } else {
        assert keys'[k].values[|keys[k].values|] == v;
      }
    }
  }

  lemma ValueGainedLinks(keys: Keys, keys': Keys, vals: Vals, root: u32, k: u32, v: u32, r: ValRec, j: u32)
    requires root in keys && j in keys && LinksOk(keys, vals, root, j) && v !in vals && r.key == k
    requires ValueAdded(keys, keys', k, v)
    ensures LinksOk(keys', vals[v := r], root, j)
  {
    hide NameHash, Hashes, Sorted;
    var vals' := vals[v := r];
    forall i {:trigger ChildLink(keys', root, j, i)} | 0 <= i < |keys'[j].subkeys|
      ensures ChildLink(keys', root, j, i)
    {
      assert ChildLink(keys, root, j, i);
    }
    forall i {:trigger ValueLink(keys', vals', j, i)} | 0 <= i < |keys'[j].values|
      ensures ValueLink(keys', vals', j, i)
    {
      assert i < |keys[j].values| ==> ValueLink(keys, vals, j, i);
    }
    forall i, i' | 0 <= i < i' < |keys'[j].values|
      ensures keys'[j].values[i] != keys'[j].values[i']
    {
      assert ValueLink(keys, vals, j, i);
    }
    if j != root {
      var q := keys[j].parent;
      var i :| 0 <= i < |keys[q].subkeys| && keys[q].subkeys[i].key == j;
      assert keys'[q].subkeys[i].key == j;
    }
  }
}
